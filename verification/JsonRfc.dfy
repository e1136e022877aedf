/**
  The parser's language against RFC 8259 itself.

  `Syntax` is the concrete syntax of sections 2 to 7, white space and escapes included, so `Print` ranges
  over all JSON texts. Every object text is read whole as what it means, unless one
  of its integers is out of range, and then it is refused.
 */
module JsonRfc {
  import opened CStrings
  import opened JsonGrammar
  import opened JsonNumber
  import opened JsonStack
  import opened Ascii

  /** char = unescaped / escape letter / escape u 4HEXDIG (section 7) */
  datatype Item = Plain(c: char) | Escape(letter: char) | Unicode(hex: string)

  datatype Syntax =
    | SText(items: seq<Item>)
    | SWord(word: string)
    | SNumber(numeral: Numeral)
    | SObject(blank: string, fields: seq<Field>)
    | SArray(blank: string, fields: seq<Field>)

  /**
    ws string ws : ws value ws, or ws value ws in an array, where name is None and the second and third ws are
    unused.
   */
  datatype Field = Field(ws1: string, name: Option<seq<Item>>, ws2: string, ws3: string, value: Syntax, ws4: string)

  predicate IsWsChar(c: char) {
    c == ' ' || c == '\t' || c == '\n' || c == '\r'
  }

  predicate IsWs(s: string) {
    forall k {:trigger CharOf(s, k)} | 0 <= k < |s| :: IsWsChar(CharOf(s, k))
  }

  lemma WsParts(s: string)
    requires IsWs(s) && s != ""
    ensures IsWsChar(s[0]) && IsWs(s[1..])
  {
    assert s[0] == CharOf(s, 0);
    forall k | 0 <= k < |s| - 1 ensures IsWsChar(CharOf(s[1..], k)) {
      assert CharOf(s[1..], k) == CharOf(s, k + 1);
    }
  }

  predicate IsItem(x: Item) {
    match x
    case Plain(c) => c as int >= 0x20 && c as int != 0x22 && c as int != 0x5C
    case Escape(c) => EscapeCode(c as int) >= 0
    case Unicode(h) => |h| == 4 && forall k | 0 <= k < 4 :: HexCode(h[k] as int) >= 0
  }

  /** The code's table of escapes is the one of section 7 of RFC 8259, and no other letter is an escape. */
  lemma EscapeTable(c: char)
    ensures Unescape(c) != NUL <==> EscapeCode(c as int) >= 0
    ensures EscapeCode(c as int) >= 0 ==> Unescape(c) as int == EscapeCode(c as int)
  {
  }

  predicate IsWord(w: string) {
    w == "true" || w == "false" || w == "null"
  }

  ghost predicate IsJson(x: Syntax)
    decreases x, 0
  {
    match x
    case SText(items) => forall k | 0 <= k < |items| :: IsItem(items[k])
    case SWord(w) => IsWord(w)
    case SNumber(n) => IsNumeral(n)
    case SObject(blank, fields) => IsWs(blank) && AreFields(fields, true)
    case SArray(blank, fields) => IsWs(blank) && AreFields(fields, false)
  }

  ghost predicate IsField(f: Field, named: bool)
    decreases f, 1
  {
    && IsWs(f.ws1) && IsWs(f.ws2) && IsWs(f.ws3) && IsWs(f.ws4)
    && f.name.Some? == named
    && (named ==> forall k | 0 <= k < |f.name.value| :: IsItem(f.name.value[k]))
    && IsJson(f.value)
  }

  ghost predicate AreFields(fs: seq<Field>, named: bool)
    decreases fs, 2
  {
    fs == [] || (IsField(fs[0], named) && AreFields(fs[1..], named))
  }

  // ---- printing ----

  function PrintItem(x: Item): string {
    match x
    case Plain(c) => [c]
    case Escape(c) => ['\\', c]
    case Unicode(h) => "\\u" + h
  }

  function PrintItems(items: seq<Item>): string {
    if items == [] then "\"" else PrintItem(items[0]) + PrintItems(items[1..])
  }

  function Print(x: Syntax): string
    decreases x, 0
  {
    match x
    case SText(items) => "\"" + PrintItems(items)
    case SWord(w) => w
    case SNumber(n) => PrintNumeral(n)
    case SObject(blank, fields) => "{" + (blank + PrintFields(fields, '}'))
    case SArray(blank, fields) => "[" + (blank + PrintFields(fields, ']'))
  }

  function PrintName(f: Field): string {
    if f.name.None? then "" else "\"" + (PrintItems(f.name.value) + (f.ws2 + (":" + f.ws3)))
  }

  function PrintField(f: Field): string
    decreases f, 1
  {
    f.ws1 + (PrintName(f) + (Print(f.value) + f.ws4))
  }

  /** The fields separated by commas, and the closing bracket. */
  function PrintFields(fs: seq<Field>, close: char): string
    decreases fs, 2
  {
    if fs == [] then [close]
    else PrintField(fs[0]) + ((if |fs| == 1 then "" else ",") + PrintFields(fs[1..], close))
  }

  // ---- meaning ----

  function ItemChar(x: Item): char {
    match x
    case Plain(c) => c
    case Escape(c) => if EscapeCode(c as int) >= 0 then EscapeCode(c as int) as char else NUL
    case Unicode(_) => '?'
  }

  function Decode(items: seq<Item>): string {
    if items == [] then "" else [ItemChar(items[0])] + Decode(items[1..])
  }

  function Meaning(x: Syntax): Value
    decreases x, 0
  {
    match x
    case SText(items) => Scalar(TEXT, Decode(items))
    case SWord(w) => Scalar(if w == "null" then NUL_KIND else BOOLEAN, w)
    case SNumber(n) => Scalar(if IsInteger(n) then INTEGER else REAL, PrintNumeral(n))
    case SObject(_, fields) => Container(true, MeaningAll(fields))
    case SArray(_, fields) => Container(false, MeaningAll(fields))
  }

  function NameOf(f: Field): Option<string> {
    if f.name.None? then None else Some(Decode(f.name.value))
  }

  function MeaningOf(f: Field): Member
    decreases f, 1
  {
    Member(NameOf(f), Meaning(f.value))
  }

  function MeaningAll(fs: seq<Field>): seq<Member>
    decreases fs, 2
  {
    if fs == [] then [] else [MeaningOf(fs[0])] + MeaningAll(fs[1..])
  }

  /** Every integer in it passes the overflow test. */
  predicate Fits(x: Syntax)
    decreases x, 0
  {
    match x
    case SText(_) => true
    case SWord(_) => true
    case SNumber(n) => IsInteger(n) ==> IntegerFits(PrintNumeral(n))
    case SObject(_, fields) => FitsAll(fields)
    case SArray(_, fields) => FitsAll(fields)
  }

  predicate FitsAll(fs: seq<Field>)
    decreases fs, 2
  {
    fs == [] || (FitsField(fs[0]) && FitsAll(fs[1..]))
  }

  predicate FitsField(f: Field)
    decreases f, 1
  {
    Fits(f.value)
  }

  /** What should be read for x printed up to index n. */
  function Expected(x: Syntax, n: nat): Parse<Value> {
    if Fits(x) then Parsed(Meaning(x), n) else NoParse
  }

  // ---- reading what was printed ----

  lemma {:induction false} WsSkipped(t: string, i: nat, ws: string)
    requires IsWs(ws) && Matches(t, i, ws)
    ensures SkipBlanks(t, i) == SkipBlanks(t, i + |ws|)
    ensures SkipSeparators(t, i) == SkipSeparators(t, i + |ws|)
    decreases |ws|
  {
    if ws != "" {
      WsParts(ws);
      MatchesAt(t, i, ws, 0);
      assert ws == [ws[0]] + ws[1..];
      MatchesSplit(t, i, [ws[0]], ws[1..]);
      WsSkipped(t, i + 1, ws[1..]);
    }
  }

  lemma WsSkippedTo(t: string, i: nat, j: nat, ws: string)
    requires IsWs(ws) && Matches(t, i, ws) && j == i + |ws|
    ensures SkipBlanks(t, i) == SkipBlanks(t, j) && SkipSeparators(t, i) == SkipSeparators(t, j)
  {
    WsSkipped(t, i, ws);
  }

  lemma HexDigits(h: string)
    ensures forall k | 0 <= k < |h| :: IsHexDigit(h[k]) <==> HexCode(h[k] as int) >= 0
  {
    forall k | 0 <= k < |h| ensures IsHexDigit(h[k]) <==> HexCode(h[k] as int) >= 0 {
      DigitCodes(h[k]);
    }
  }

  lemma ItemRead(t: string, i: nat, x: Item)
    requires IsItem(x) && Matches(t, i, PrintItem(x))
    ensures At(t, i) >= ' ' && t[i] != '\"'
    ensures StringChar(t, i) == Parsed(ItemChar(x), i + |PrintItem(x)|)
  {
    var s := PrintItem(x);
    MatchesAt(t, i, s, 0);
    if !x.Plain? {
      MatchesAt(t, i, s, 1);
    }
    if x.Escape? {
      EscapeTable(x.letter);
    }
    if x.Unicode? {
      HexDigits(x.hex);
      MatchesAt(t, i, s, 2);
      MatchesAt(t, i, s, 3);
      MatchesAt(t, i, s, 4);
      MatchesAt(t, i, s, 5);
    }
  }

  lemma {:induction false} TextRead(t: string, i: nat, items: seq<Item>)
    requires (forall k | 0 <= k < |items| :: IsItem(items[k])) && Matches(t, i, PrintItems(items))
    ensures StringTail(t, i) == Parsed(Decode(items), i + |PrintItems(items)|)
    decreases |items|
  {
    if items == [] {
      MatchesAt(t, i, "\"", 0);
    } else {
      MatchesSplit(t, i, PrintItem(items[0]), PrintItems(items[1..]));
      ItemRead(t, i, items[0]);
      TextRead(t, i + |PrintItem(items[0])|, items[1..]);
    }
  }

  /** The first character printed for a value is none that a blank, comma or bracket could be taken for. */
  lemma FirstChar(x: Syntax)
    requires IsJson(x)
    ensures var s := Print(x);
            && s != "" && s[0] != NUL && !IsBlank(s[0]) && s[0] != ',' && !IsBracket(s[0])
            && (s[0] == '{' <==> x.SObject?) && (s[0] == '[' <==> x.SArray?)
  {
    if x.SNumber? {
      var n := x.numeral;
      assert Print(x)[0] == if n.neg then '-' else n.whole[0];
    }
  }

  lemma TextScalarRead(t: string, i: nat, items: seq<Item>)
    requires IsJson(SText(items)) && Matches(t, i, "\"" + PrintItems(items))
    ensures ScalarValue(t, i) == Parsed(Scalar(TEXT, Decode(items)), i + 1 + |PrintItems(items)|)
  {
    MatchesSplit(t, i, "\"", PrintItems(items));
    MatchesAt(t, i, "\"", 0);
    TextRead(t, i + 1, items);
  }

  lemma NumberScalarRead(t: string, i: nat, n: Numeral)
    requires IsNumeral(n) && Matches(t, i, PrintNumeral(n)) && EndsPrimitive(At(t, i + |PrintNumeral(n)|))
    ensures ScalarValue(t, i) == Expected(SNumber(n), i + |PrintNumeral(n)|)
  {
    NumberReads(t, i, n);
    assert PrintNumeral(n)[0] == if n.neg then '-' else n.whole[0];
    MatchesAt(t, i, PrintNumeral(n), 0);
    assert ScalarValue(t, i) == Number(t, i);
  }

  lemma WordScalarRead(t: string, i: nat, w: string)
    requires IsWord(w) && Matches(t, i, w) && EndsPrimitive(At(t, i + |w|))
    ensures ScalarValue(t, i) == Parsed(Meaning(SWord(w)), i + |w|)
  {
    MatchesAt(t, i, w, 0);
  }

  lemma ScalarRead(t: string, i: nat, x: Syntax)
    requires IsJson(x) && !x.SObject? && !x.SArray? && Matches(t, i, Print(x))
    requires EndsPrimitive(At(t, i + |Print(x)|))
    ensures ScalarValue(t, i) == Expected(x, i + |Print(x)|)
  {
    match x
    case SText(items) => TextScalarRead(t, i, items);
    case SWord(w) => WordScalarRead(t, i, w);
    case SNumber(n) => NumberScalarRead(t, i, n);
  }

  lemma MatchesSplit3(t: string, i: nat, a: string, b: string, c: string)
    requires Matches(t, i, a + (b + c))
    ensures Matches(t, i, a) && Matches(t, i + |a|, b) && Matches(t, i + |a| + |b|, c)
  {
    MatchesSplit(t, i, a, b + c);
    MatchesSplit(t, i + |a|, b, c);
  }

  function ValueAt(i: nat, f: Field): nat {
    i + |f.ws1| + |PrintName(f)|
  }

  function ValueEnd(i: nat, f: Field): nat {
    ValueAt(i, f) + |Print(f.value)|
  }

  /** The text from i: white space, the name, the value, and the trailing white space. */
  lemma FieldParts(t: string, i: nat, f: Field)
    requires Matches(t, i, PrintField(f))
    ensures Matches(t, i, f.ws1) && Matches(t, i + |f.ws1|, PrintName(f))
    ensures Matches(t, ValueAt(i, f), Print(f.value)) && Matches(t, ValueEnd(i, f), f.ws4)
    ensures i + |PrintField(f)| == ValueEnd(i, f) + |f.ws4|
  {
    var a, b, c, d := f.ws1, PrintName(f), Print(f.value), f.ws4;
    assert PrintField(f) == a + (b + (c + d));
    MatchesSplit3(t, i, a, b, c + d);
    MatchesSplit(t, i + |a| + |b|, c, d);
  }

  lemma NameParts(t: string, i: nat, a: nat, c: nat, v: nat, f: Field)
    requires f.name.Some? && Matches(t, i, PrintName(f))
    requires a == i + 1 + |PrintItems(f.name.value)| && c == a + |f.ws2| && v == i + |PrintName(f)|
    ensures At(t, i) == '\"' && Matches(t, i + 1, PrintItems(f.name.value)) && Matches(t, a, f.ws2)
    ensures At(t, c) == ':' && Matches(t, c + 1, f.ws3) && v == c + 1 + |f.ws3|
  {
    var items := PrintItems(f.name.value);
    assert PrintName(f) == "\"" + (items + (f.ws2 + (":" + f.ws3)));
    NameSplit(t, i, items, f.ws2, f.ws3, a, c);
  }

  lemma NameSplit(t: string, i: nat, items: string, ws2: string, ws3: string, a: nat, c: nat)
    requires Matches(t, i, "\"" + (items + (ws2 + (":" + ws3)))) && a == i + 1 + |items| && c == a + |ws2|
    ensures At(t, i) == '\"' && Matches(t, i + 1, items) && Matches(t, a, ws2)
    ensures At(t, c) == ':' && Matches(t, c + 1, ws3)
  {
    MatchesSplit3(t, i, "\"", items, ws2 + (":" + ws3));
    MatchesSplit3(t, a, ws2, ":", ws3);
    MatchesAt(t, i, "\"", 0);
    MatchesAt(t, c, ":", 0);
  }

  lemma NameFromParts(t: string, i: nat, s: string, n: nat, c: nat, v: nat)
    requires At(t, i) == '\"' && StringTail(t, i + 1) == Parsed(s, n)
    requires SkipBlanks(t, n) == Some(c) && t[c] == ':' && SkipBlanks(t, c + 1) == Some(v)
    ensures Name(t, i) == Parsed(s, v)
  {
  }

  lemma NameRead(t: string, i: nat, f: Field)
    requires IsField(f, true) && Matches(t, i, PrintName(f))
    requires SkipBlanks(t, i + |PrintName(f)|) == Some(i + |PrintName(f)|)
    ensures At(t, i) == '\"' && Name(t, i) == Parsed(Decode(f.name.value), i + |PrintName(f)|)
  {
    var a := i + 1 + |PrintItems(f.name.value)|;
    var c, v := a + |f.ws2|, i + |PrintName(f)|;
    NameParts(t, i, a, c, v, f);
    NameReadAt(t, i, f.name.value, f.ws2, f.ws3, a, c, v);
  }

  lemma NameReadAt(t: string, i: nat, items: seq<Item>, ws2: string, ws3: string, a: nat, c: nat, v: nat)
    requires IsWs(ws2) && IsWs(ws3) && forall k | 0 <= k < |items| :: IsItem(items[k])
    requires a == i + 1 + |PrintItems(items)| && c == a + |ws2| && v == c + 1 + |ws3|
    requires At(t, i) == '\"' && Matches(t, i + 1, PrintItems(items)) && Matches(t, a, ws2)
    requires At(t, c) == ':' && Matches(t, c + 1, ws3) && SkipBlanks(t, v) == Some(v)
    ensures Name(t, i) == Parsed(Decode(items), v)
  {
    TextRead(t, i + 1, items);
    WsSkippedTo(t, a, c, ws2);
    WsSkippedTo(t, c + 1, v, ws3);
    NameFromParts(t, i, Decode(items), a, c, v);
  }

  /** Where a value is printed, nothing is skipped. */
  lemma ValueStarts(t: string, v: nat, x: Syntax)
    requires IsJson(x) && Matches(t, v, Print(x))
    ensures v < |t| && !IsBracket(t[v]) && (t[v] == '{' <==> x.SObject?) && (t[v] == '[' <==> x.SArray?)
    ensures SkipBlanks(t, v) == Some(v) && SkipSeparators(t, v) == Some(v)
  {
    FirstChar(x);
    MatchesAt(t, v, Print(x), 0);
  }

  /** A field's name, or the lack of one, is read up to its value. */
  lemma FieldNameRead(t: string, s: nat, v: nat, f: Field, named: bool)
    requires IsField(f, named) && Matches(t, s, PrintName(f)) && v == s + |PrintName(f)|
    requires v < |t| && !IsBracket(t[v]) && SkipBlanks(t, v) == Some(v) && SkipSeparators(t, v) == Some(v)
    ensures s < |t| && SkipSeparators(t, s) == Some(s) && t[s] != Close(named)
    ensures MemberName(t, s, named) == Parsed(NameOf(f), v)
  {
    if named {
      NameRead(t, s, f);
    } else {
      assert v == s;
    }
  }

  /** Members read over one of them. */
  lemma OverMember(t: string, s: nat, v: nat, n: nat, name: Option<string>, x: Syntax, named: bool)
    requires SkipSeparators(t, s) == Some(s) && t[s] != Close(named)
    requires MemberName(t, s, named) == Parsed(name, v) && ParseValue(t, v) == Expected(x, n)
    ensures var rest := Members(t, n, named);
            Members(t, s, named) ==
            if Fits(x) && rest.Parsed? then Parsed([Member(name, Meaning(x))] + rest.value, rest.next) else NoParse
  {
  }

  /** A value printed in a text, followed by something that can follow it, is read as expected. */
  lemma {:induction false} ValueRead(t: string, i: nat, x: Syntax)
    requires IsJson(x) && Matches(t, i, Print(x))
    requires EndsPrimitive(At(t, i + |Print(x)|)) || x.SObject? || x.SArray?
    ensures i < |t| && ParseValue(t, i) == Expected(x, i + |Print(x)|)
    decreases x, 1
  {
    ValueStarts(t, i, x);
    if x.SObject? || x.SArray? {
      ContainerValueRead(t, i, x);
    } else {
      ScalarRead(t, i, x);
    }
  }

  lemma {:induction false} ContainerValueRead(t: string, i: nat, x: Syntax)
    requires IsJson(x) && Matches(t, i, Print(x)) && (x.SObject? || x.SArray?)
    requires i < |t| && t[i] == if x.SObject? then '{' else '['
    ensures ParseValue(t, i) == Expected(x, i + |Print(x)|)
    decreases x, 0
  {
    ContainerParts(t, i, x);
    FieldsOf(x);
    BlankFieldsRead(t, i + 1, x.blank, x.fields, x.SObject?, i + |Print(x)|);
    ContainerRead(t, i, x, i + |Print(x)|);
  }

  lemma FieldsOf(x: Syntax)
    requires IsJson(x) && (x.SObject? || x.SArray?)
    ensures IsWs(x.blank) && AreFields(x.fields, x.SObject?)
  {
  }

  lemma {:induction false} BlankFieldsRead(t: string, i: nat, blank: string, fs: seq<Field>, named: bool, n: nat)
    requires IsWs(blank) && AreFields(fs, named) && n == i + |blank| + |PrintFields(fs, Close(named))|
    requires Matches(t, i, blank) && Matches(t, i + |blank|, PrintFields(fs, Close(named)))
    ensures Members(t, i, named) == if FitsAll(fs) then Parsed(MeaningAll(fs), n) else NoParse
    decreases fs, 3
  {
    WsSkipped(t, i, blank);
    SameMembers(t, i, i + |blank|, named);
    FieldsRead(t, i + |blank|, fs, named);
  }

  lemma SameMembers(t: string, i: nat, j: nat, named: bool)
    requires SkipSeparators(t, i) == SkipSeparators(t, j)
    ensures Members(t, i, named) == Members(t, j, named)
  {
  }

  lemma ContainerRead(t: string, i: nat, x: Syntax, n: nat)
    requires i < |t| && (x.SObject? || x.SArray?) && t[i] == if x.SObject? then '{' else '['
    requires Members(t, i + 1, x.SObject?) == if FitsAll(x.fields) then Parsed(MeaningAll(x.fields), n) else NoParse
    ensures ParseValue(t, i) == Expected(x, n)
  {
  }

  lemma ContainerParts(t: string, i: nat, x: Syntax)
    requires (x.SObject? || x.SArray?) && Matches(t, i, Print(x))
    ensures var s := PrintFields(x.fields, Close(x.SObject?));
            && Matches(t, i + 1, x.blank) && Matches(t, i + 1 + |x.blank|, s)
            && |Print(x)| == 1 + |x.blank| + |s|
  {
    MatchesSplit3(t, i, if x.SObject? then "{" else "[", x.blank, PrintFields(x.fields, Close(x.SObject?)));
  }

  lemma {:induction false} FieldsRead(t: string, i: nat, fs: seq<Field>, named: bool)
    requires AreFields(fs, named) && Matches(t, i, PrintFields(fs, Close(named)))
    ensures Members(t, i, named) ==
            if FitsAll(fs) then Parsed(MeaningAll(fs), i + |PrintFields(fs, Close(named))|) else NoParse
    decreases fs, 2
  {
    if fs == [] {
      MatchesAt(t, i, [Close(named)], 0);
    } else {
      var rest, n := fs[1..], ValueEnd(i, fs[0]);
      var m := FieldTail(t, i, fs, named);
      FirstOfFieldsRead(t, i, fs, named);
      FieldsRead(t, m, rest, named);
      SameMembers(t, n, m, named);
      FieldsMeaning(fs, Members(t, n, named), m + |PrintFields(rest, Close(named))|);
    }
  }

  lemma {:induction false} FirstOfFieldsRead(t: string, i: nat, fs: seq<Field>, named: bool)
    requires fs != [] && AreFields(fs, named) && Matches(t, i, PrintFields(fs, Close(named)))
    requires EndsPrimitive(At(t, ValueEnd(i, fs[0])))
    ensures var rest := Members(t, ValueEnd(i, fs[0]), named);
            Members(t, i, named) ==
            if FitsField(fs[0]) && rest.Parsed? then Parsed([MeaningOf(fs[0])] + rest.value, rest.next) else NoParse
    decreases fs, 1
  {
    FieldsParts(t, i, fs, Close(named));
    assert fs[0] in fs;
    FirstFieldRead(t, i, fs[0], named);
  }

  /** Up to its value, a field is white space and a name. */
  lemma FieldHead(t: string, i: nat, s: nat, v: nat, f: Field, named: bool)
    requires IsField(f, named) && s == i + |f.ws1| && v == s + |PrintName(f)|
    requires Matches(t, i, f.ws1) && Matches(t, s, PrintName(f)) && Matches(t, v, Print(f.value))
    ensures s < |t| && SkipSeparators(t, i) == SkipSeparators(t, s) == Some(s) && t[s] != Close(named)
    ensures MemberName(t, s, named) == Parsed(NameOf(f), v)
  {
    ValueStarts(t, v, f.value);
    FieldNameRead(t, s, v, f, named);
    WsSkippedTo(t, i, s, f.ws1);
  }

  lemma {:induction false} FirstFieldRead(t: string, i: nat, f: Field, named: bool)
    requires IsField(f, named) && Matches(t, i, f.ws1) && Matches(t, i + |f.ws1|, PrintName(f))
    requires Matches(t, ValueAt(i, f), Print(f.value)) && EndsPrimitive(At(t, ValueEnd(i, f)))
    ensures var rest := Members(t, ValueEnd(i, f), named);
            Members(t, i, named) ==
            if FitsField(f) && rest.Parsed? then Parsed([MeaningOf(f)] + rest.value, rest.next) else NoParse
    decreases f, 2
  {
    FieldReadAt(t, i, i + |f.ws1|, ValueAt(i, f), ValueEnd(i, f), f, named);
  }

  /** The same with the places of the name, the value and its end. */
  lemma {:induction false} FieldReadAt(t: string, i: nat, s: nat, v: nat, n: nat, f: Field, named: bool)
    requires IsField(f, named) && Matches(t, i, f.ws1) && s == i + |f.ws1| && Matches(t, s, PrintName(f))
    requires v == s + |PrintName(f)| && Matches(t, v, Print(f.value))
    requires n == v + |Print(f.value)| && EndsPrimitive(At(t, n))
    ensures var rest := Members(t, n, named);
            Members(t, i, named) ==
            if FitsField(f) && rest.Parsed? then Parsed([MeaningOf(f)] + rest.value, rest.next) else NoParse
    decreases f, 1
  {
    FieldHead(t, i, s, v, f, named);
    ValueRead(t, v, f.value);
    SameMembers(t, i, s, named);
    OverMember(t, s, v, n, NameOf(f), f.value, named);
  }

  /** m is where the fields after the first one start. */
  lemma FieldTail(t: string, i: nat, fs: seq<Field>, named: bool) returns (m: nat)
    requires fs != [] && AreFields(fs, named) && Matches(t, i, PrintFields(fs, Close(named)))
    ensures var n, rest := ValueEnd(i, fs[0]), PrintFields(fs[1..], Close(named));
            && EndsPrimitive(At(t, n)) && SkipSeparators(t, n) == SkipSeparators(t, m)
            && Matches(t, m, rest) && i + |PrintFields(fs, Close(named))| == m + |rest|
  {
    var n, comma := ValueEnd(i, fs[0]), if |fs| == 1 then "" else ",";
    m := n + |fs[0].ws4| + |comma|;
    FieldsParts(t, i, fs, Close(named));
    FirstWs(fs, named);
    AfterField(t, n, n + |fs[0].ws4|, m, fs[0].ws4, comma, fs[1..], named);
  }

  lemma FirstWs(fs: seq<Field>, named: bool)
    requires fs != [] && AreFields(fs, named)
    ensures IsWs(fs[0].ws4)
  {
  }

  lemma FieldsMeaning(fs: seq<Field>, rest: Parse<seq<Member>>, n: nat)
    requires fs != [] && rest == if FitsAll(fs[1..]) then Parsed(MeaningAll(fs[1..]), n) else NoParse
    ensures (if FitsField(fs[0]) && rest.Parsed? then Parsed([MeaningOf(fs[0])] + rest.value, rest.next) else NoParse)
            == if FitsAll(fs) then Parsed(MeaningAll(fs), n) else NoParse
  {
  }

  lemma FieldsParts(t: string, i: nat, fs: seq<Field>, close: char)
    requires fs != [] && Matches(t, i, PrintFields(fs, close))
    ensures var f, n, comma := fs[0], ValueEnd(i, fs[0]), if |fs| == 1 then "" else ",";
            && Matches(t, i, f.ws1) && Matches(t, i + |f.ws1|, PrintName(f))
            && Matches(t, ValueAt(i, f), Print(f.value)) && Matches(t, n, f.ws4)
            && Matches(t, n + |f.ws4|, comma) && Matches(t, n + |f.ws4| + |comma|, PrintFields(fs[1..], close))
            && i + |PrintFields(fs, close)| == n + |f.ws4| + |comma| + |PrintFields(fs[1..], close)|
  {
    var f, comma := fs[0], if |fs| == 1 then "" else ",";
    MatchesSplit3(t, i, PrintField(f), comma, PrintFields(fs[1..], close));
    FieldParts(t, i, f);
  }

  /** What follows a field's value ends a primitive, and it is skipped as separators. */
  lemma AfterField(t: string, n: nat, c: nat, m: nat, ws: string, comma: string, rest: seq<Field>, named: bool)
    requires c == n + |ws| && m == c + |comma| && IsWs(ws) && Matches(t, n, ws) && Matches(t, c, comma)
    requires if rest == [] then comma == "" else comma == ","
    requires Matches(t, m, PrintFields(rest, Close(named)))
    ensures EndsPrimitive(At(t, n))
    ensures SkipSeparators(t, n) == SkipSeparators(t, m)
  {
    WsSkippedTo(t, n, c, ws);
    if rest == [] {
      MatchesAt(t, c, [Close(named)], 0);
    } else {
      MatchesAt(t, c, comma, 0);
    }
    if ws != "" {
      WsParts(ws);
      MatchesAt(t, n, ws, 0);
    }
  }

  /**
    Every RFC 8259 object text, with white space before it and anything after it, is read whole as what it
    means, unless it has an integer that fails the overflow test, and then it is refused.
   */
  lemma Rfc8259Text(ws: string, x: Syntax, rest: string)
    requires IsWs(ws) && IsJson(x) && x.SObject?
    ensures Document(ws + Print(x) + rest) ==
            if Fits(x) then Parsed(Meaning(x), |ws| + |Print(x)|) else NoParse
  {
    var t := ws + Print(x) + rest;
    assert Matches(t, 0, ws) && Matches(t, |ws|, Print(x));
    WsSkipped(t, 0, ws);
    ValueStarts(t, |ws|, x);
    ValueRead(t, |ws|, x);
  }

  // ---- escapes by number ----

  function HexValue(h: string): nat
    requires forall k | 0 <= k < |h| :: HexCode(h[k] as int) >= 0
  {
    if h == "" then 0 else 16 * HexValue(h[..|h| - 1]) + HexCode(h[|h| - 1] as int)
  }

  /** The number section 7 of RFC 8259 gives an item. A surrogate pair stays two numbers. */
  function RfcCode(x: Item): nat
    requires IsItem(x)
  {
    match x
    case Plain(c) => c as int
    case Escape(letter) => EscapeCode(letter as int)
    case Unicode(h) => HexValue(h)
  }

  function RfcCodes(items: seq<Item>): (codes: seq<nat>)
    requires forall k | 0 <= k < |items| :: IsItem(items[k])
    ensures |codes| == |items|
  {
    seq(|items|, k requires 0 <= k < |items| => RfcCode(items[k]))
  }

  function Codes(s: string): (codes: seq<nat>)
    ensures |codes| == |s|
  {
    seq(|s|, k requires 0 <= k < |s| => s[k] as int)
  }

  lemma {:induction false} DecodeAt(items: seq<Item>, k: nat)
    requires k < |items|
    ensures |Decode(items)| == |items| && Decode(items)[k] == ItemChar(items[k])
    decreases |items|
  {
    if |items| > 1 {
      DecodeAt(items[1..], if k > 0 then k - 1 else 0);
    } else {
      assert items[1..] == [];
    }
  }

  lemma {:induction false} DecodeLength(items: seq<Item>)
    ensures |Decode(items)| == |items|
  {
    if items != [] { DecodeLength(items[1..]); }
  }

  /** If the item is a \u escape, the escape denotes '?'. */
  predicate KeepsCode(x: Item)
    requires IsItem(x)
  {
    x.Unicode? ==> HexValue(x.hex) == '?' as int
  }

  lemma KeptCode(x: Item)
    requires IsItem(x)
    ensures KeepsCode(x) <==> ItemChar(x) as int == RfcCode(x)
  {
  }

  lemma CodeAt(items: seq<Item>, codes: seq<nat>, meant: seq<nat>, k: nat)
    requires (forall j | 0 <= j < |items| :: IsItem(items[j])) && k < |items|
    requires codes == Codes(Decode(items)) && meant == RfcCodes(items)
    ensures |codes| == |items| && (codes[k] == meant[k] <==> KeepsCode(items[k]))
  {
    DecodeAt(items, k);
    KeptCode(items[k]);
  }

  /** A string is decoded to the characters RFC 8259 gives it exactly if each of its \u escapes denotes '?'. */
  lemma DecodesExactly(items: seq<Item>)
    requires forall k | 0 <= k < |items| :: IsItem(items[k])
    ensures Codes(Decode(items)) == RfcCodes(items) <==> forall k | 0 <= k < |items| :: KeepsCode(items[k])
  {
    DecodeLength(items);
    var codes, meant := Codes(Decode(items)), RfcCodes(items);
    SameCodes(items, codes, meant);
  }

  lemma SameCodes(items: seq<Item>, codes: seq<nat>, meant: seq<nat>)
    requires (forall k | 0 <= k < |items| :: IsItem(items[k])) && |codes| == |meant| == |items|
    requires codes == Codes(Decode(items)) && meant == RfcCodes(items)
    ensures codes == meant <==> forall k | 0 <= k < |items| :: KeepsCode(items[k])
  {
    if forall k | 0 <= k < |items| :: KeepsCode(items[k]) {
      forall k | 0 <= k < |items| ensures codes[k] == meant[k] {
        CodeAt(items, codes, meant, k);
      }
    } else {
      var k: nat :| k < |items| && !KeepsCode(items[k]);
      CodeAt(items, codes, meant, k);
    }
  }

  // ---- a round trip ----

  /** A character of a string, escaped by the letter for its code where it has one and may not stand for itself. */
  function Escaped(c: char): Item {
    match c as int
    case 0x22 => Escape(0x22 as char)
    case 0x5C => Escape(0x5C as char)
    case 0x08 => Escape(0x62 as char)
    case 0x09 => Escape(0x74 as char)
    case 0x0A => Escape(0x6E as char)
    case 0x0C => Escape(0x66 as char)
    case 0x0D => Escape(0x72 as char)
    case _ => Plain(c)
  }

  predicate CanEscape(c: char) {
    c as int >= 0x20 || c as int == 0x08 || 0x09 <= c as int <= 0x0A || 0x0C <= c as int <= 0x0D
  }

  function EscapeAll(s: string): (items: seq<Item>)
    ensures |items| == |s| && forall k | 0 <= k < |s| :: items[k] == Escaped(s[k])
  {
    seq(|s|, k requires 0 <= k < |s| => Escaped(s[k]))
  }

  lemma EscapedIs(c: char)
    requires CanEscape(c)
    ensures IsItem(Escaped(c)) && ItemChar(Escaped(c)) == c
  {
  }

  /** A string without control characters other than those with a letter is printed, and read back as it was. */
  lemma StringRoundTrip(t: string, i: nat, s: string)
    requires forall k | 0 <= k < |s| :: CanEscape(s[k])
    requires Matches(t, i, PrintItems(EscapeAll(s)))
    ensures StringTail(t, i) == Parsed(s, i + |PrintItems(EscapeAll(s))|)
  {
    var items := EscapeAll(s);
    forall k | 0 <= k < |items| ensures IsItem(items[k]) && ItemChar(items[k]) == s[k] {
      EscapedIs(s[k]);
    }
    TextRead(t, i, items);
    DecodeLength(items);
    forall k | 0 <= k < |s| ensures Decode(items)[k] == s[k] {
      DecodeAt(items, k);
    }
    assert Decode(items) == s;
  }

  lemma LetterA()
    ensures HexValue("0041") == 65
  {
    assert "0041"[..3] == "004" && "004"[..2] == "00" && "00"[..1] == "0" && "0"[..0] == "";
    assert HexValue("0") == 0;
    assert HexValue("00") == 0;
    assert HexValue("004") == 4;
  }

  /** The escape for 'A' is read as '?'. */
  lemma EscapeExample()
    ensures StringTail("\\u0041\"", 0) == Parsed("?", 7)
    ensures RfcCodes([Unicode("0041")]) == Codes("A") && Codes("A") != Codes("?")
  {
    var t, items := "\\u0041\"", [Unicode("0041")];
    LetterA();
    assert RfcCodes(items)[0] == Codes("A")[0] == 65 && Codes("?")[0] == 63;
    assert items[1..] == [] && PrintItems([]) == "\"" && Decode([]) == "";
    assert PrintItem(items[0]) == "\\u0041" && Decode(items) == "?";
    assert PrintItems(items) == t;
    assert t[0..0 + |t|] == t;
    MatchesSlice(t, 0, t);
    TextRead(t, 0, items);
  }

  // ---- the range of integers ----

  /** Every integer in it is a signed 64-bit integer. */
  ghost predicate InRange(x: Syntax)
    decreases x, 0
  {
    match x
    case SText(_) => true
    case SWord(_) => true
    case SNumber(n) => IsNumeral(n) && IsInteger(n) ==> InInt64(IntValue(n))
    case SObject(_, fields) => AllInRange(fields)
    case SArray(_, fields) => AllInRange(fields)
  }

  ghost predicate AllInRange(fs: seq<Field>)
    decreases fs, 2
  {
    fs == [] || (FieldInRange(fs[0]) && AllInRange(fs[1..]))
  }

  ghost predicate FieldInRange(f: Field)
    decreases f, 1
  {
    InRange(f.value)
  }

  /** In texts shorter than 2^32 characters, passing the overflow test is being in range. */
  lemma {:induction false} FitsIsInRange(x: Syntax)
    requires IsJson(x) && |Print(x)| < 0x1_0000_0000
    ensures Fits(x) <==> InRange(x)
    decreases x, 0
  {
    match x {
      case SNumber(n) => if IsInteger(n) { IntegerRange(n); }
      case SObject(_, fields) => FieldsFit(fields, true);
      case SArray(_, fields) => FieldsFit(fields, false);
      case _ =>
    }
  }

  lemma {:induction false} FieldsFit(fs: seq<Field>, named: bool)
    requires AreFields(fs, named) && |PrintFields(fs, Close(named))| < 0x1_0000_0000
    ensures FitsAll(fs) <==> AllInRange(fs)
    decreases fs, 2
  {
    if fs != [] {
      assert fs[0] in fs && fs[0].value < fs[0];
      FitsIsInRange(fs[0].value);
      FieldsFit(fs[1..], named);
    }
  }

  /**
    Every RFC 8259 object text shorter than 2^32 characters is read as what it means, or has an integer out of
    range.
   */
  lemma Rfc8259Range(ws: string, x: Syntax, rest: string)
    requires IsWs(ws) && IsJson(x) && x.SObject? && |Print(x)| < 0x1_0000_0000
    ensures Document(ws + Print(x) + rest) == if InRange(x) then Parsed(Meaning(x), |ws| + |Print(x)|) else NoParse
  {
    Rfc8259Text(ws, x, rest);
    FitsIsInRange(x);
  }
}
