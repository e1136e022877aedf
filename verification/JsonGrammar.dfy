/**
  The language `json_create` accepts, as a recursive descent over an immutable text.

  It follows sections 4 to 7 of RFC 8259, except for what the parser deliberately relaxes: inside a
  container commas are optional separators, a form feed counts as blank, every \u escape
  stands for '?', only an object is accepted at the top, and what follows it is not read.
 */
module JsonGrammar {
  import opened CStrings

  datatype Kind = OBJ | ARRAY | TEXT | BOOLEAN | INTEGER | REAL | NUL_KIND

  /** A scalar keeps the C string `json_getValue` hands out: the decoded text or the literal itself. */
  datatype Value =
    | Scalar(kind: Kind, text: string)
    | Container(isObj: bool, members: seq<Member>)

  datatype Member = Member(name: Option<string>, value: Value)

  predicate IsBlank(c: char) {
    c == ' ' || c == '\n' || c == '\r' || c == '\t' || c == '\U{0C}'
  }

  predicate IsBracket(c: char) {
    c == '}' || c == ']'
  }

  predicate EndsPrimitive(c: char) {
    c == ',' || IsBlank(c) || IsBracket(c)
  }

  function Close(isObj: bool): char {
    if isObj then '}' else ']'
  }

  /** Index of the first non-blank character at or after `i`; none when the text ends first. */
  function SkipBlanks(t: string, i: nat): (r: Option<nat>)
    ensures r.Some? ==> i <= r.value < |t| && t[r.value] != NUL && !IsBlank(t[r.value])
    decreases |t| - i
  {
    if At(t, i) == NUL then None
    else if IsBlank(t[i]) then SkipBlanks(t, i + 1)
    else Some(i)
  }

  /** The same for blanks and commas, the separators inside a container. */
  function SkipSeparators(t: string, i: nat): (r: Option<nat>)
    ensures r.Some? ==> i <= r.value < |t| && t[r.value] != NUL && !IsBlank(t[r.value]) && t[r.value] != ','
    decreases |t| - i
  {
    if At(t, i) == NUL then None
    else if IsBlank(t[i]) || t[i] == ',' then SkipSeparators(t, i + 1)
    else Some(i)
  }

  // ---- strings (RFC 8259 section 7) ----

  /** What a one-letter escape stands for; NUL when it is not an escape. */
  function Unescape(c: char): char {
    match c
    case '\"' => '\"'
    case '\\' => '\\'
    case '/' => '/'
    case 'b' => '\U{08}'
    case 'f' => '\U{0C}'
    case 'n' => '\n'
    case 'r' => '\r'
    case 't' => '\t'
    case _ => NUL
  }

  /** The character encoded at `i`, which is inside a string and is neither a quote nor the end of it. */
  function StringChar(t: string, i: nat): (r: Parse<char>)
    requires At(t, i) >= ' '
    ensures r.Parsed? ==> i < r.next <= |t| && r.value != NUL
  {
    if t[i] != '\\' then Parsed(t[i], i + 1)
    else if At(t, i + 1) == 'u' then
      if IsHexDigit(At(t, i + 2)) && IsHexDigit(At(t, i + 3)) && IsHexDigit(At(t, i + 4))
        && IsHexDigit(At(t, i + 5)) then
        Parsed('?', i + 6)
      else NoParse
    else if Unescape(At(t, i + 1)) == NUL then NoParse
    else Parsed(Unescape(At(t, i + 1)), i + 2)
  }

  /** The rest of a string whose opening quote is before `i`, through its closing quote. */
  function StringTail(t: string, i: nat): (r: Parse<string>)
    ensures r.Parsed? ==> i < r.next <= |t| && i + |r.value| < r.next && NUL !in r.value
    decreases |t| - i
  {
    if At(t, i) < ' ' then NoParse
    else if t[i] == '\"' then Parsed("", i + 1)
    else
      var (c, j) :- StringChar(t, i);
      var (s, n) :- StringTail(t, j);
      Parsed([c] + s, n)
  }

  // ---- numbers (RFC 8259 section 6) ----

  function DigitsEnd(t: string, i: nat): (r: nat)
    ensures i <= r && !IsDigit(At(t, r))
    ensures i <= |t| ==> r <= |t|
    ensures forall k | i <= k < r :: IsDigit(At(t, k))
    decreases |t| - i
  {
    if IsDigit(At(t, i)) then DigitsEnd(t, i + 1) else i
  }

  /** int: the index after [ minus ] ( zero / digit1-9 *DIGIT ). */
  function IntEnd(t: string, i: nat): (r: Option<nat>)
    ensures r.Some? ==> i < r.value <= |t| && !IsDigit(At(t, r.value))
    ensures r.Some? ==> forall k | i <= k < r.value :: At(t, k) != NUL
  {
    var d := if At(t, i) == '-' then i + 1 else i;
    if !IsDigit(At(t, d)) then None
    else if t[d] == '0' then if IsDigit(At(t, d + 1)) then None else Some(d + 1)
    else Some(DigitsEnd(t, d))
  }

  /** A run of at least one digit. */
  function Digits1End(t: string, i: nat): (r: Option<nat>)
    ensures r.Some? ==> i < r.value <= |t| && !IsDigit(At(t, r.value))
    ensures r.Some? ==> forall k | i <= k < r.value :: At(t, k) != NUL
  {
    if IsDigit(At(t, i)) then Some(DigitsEnd(t, i + 1)) else None
  }

  function FracEnd(t: string, i: nat): (r: Option<nat>)
    requires i <= |t|
    ensures r.Some? ==> i <= r.value <= |t|
    ensures r.Some? ==> forall k | i <= k < r.value :: At(t, k) != NUL
  {
    if At(t, i) == '.' then Digits1End(t, i + 1) else Some(i)
  }

  function ExpEnd(t: string, i: nat): (r: Option<nat>)
    requires i <= |t|
    ensures r.Some? ==> i <= r.value <= |t|
    ensures r.Some? ==> forall k | i <= k < r.value :: At(t, k) != NUL
  {
    if At(t, i) == 'e' || At(t, i) == 'E' then
      Digits1End(t, if At(t, i + 1) == '-' || At(t, i + 1) == '+' then i + 2 else i + 1)
    else Some(i)
  }

  const MIN_INT64: string := "-9223372036854775808"
  const MAX_INT64: string := "9223372036854775807"

  /** Order of `strcmp` on texts without NUL. */
  predicate LexLess(a: string, b: string) {
    if b == "" then false
    else if a == "" then true
    else if a[0] != b[0] then a[0] < b[0]
    else LexLess(a[1..], b[1..])
  }

  /** The parser's overflow test. Lengths are `unsigned int`, so they wrap at 2^32. */
  predicate IntegerFits(lexeme: string) {
    var threshold := if At(lexeme, 0) == '-' then MIN_INT64 else MAX_INT64;
    var len := |lexeme| % 0x1_0000_0000;
    len <= |threshold| && (len == |threshold| ==> !LexLess(threshold, lexeme))
  }

  function Number(t: string, i: nat): (r: Parse<Value>)
    ensures r.Parsed? ==> i < r.next <= |t| && r.value.Scalar? && NUL !in r.value.text
    ensures r.Parsed? ==> r.value.text == t[i..r.next] && EndsPrimitive(At(t, r.next))
  {
    var e1 := IntEnd(t, i);
    if e1.None? then NoParse
    else
      var e2 := FracEnd(t, e1.value);
      if e2.None? then NoParse
      else
        var e3 := ExpEnd(t, e2.value);
        if e3.None? || !EndsPrimitive(At(t, e3.value)) then NoParse
        else
          var lexeme := t[i..e3.value];
          assert forall k | 0 <= k < |lexeme| :: lexeme[k] == At(t, i + k);
          if e3.value != e1.value then Parsed(Scalar(REAL, lexeme), e3.value)
          else if IntegerFits(lexeme) then Parsed(Scalar(INTEGER, lexeme), e3.value)
          else NoParse
  }

  /** Number by the ends of its three parts. */
  lemma NumberFromEnds(t: string, i: nat, i1: nat, i2: nat, i3: nat)
    requires IntEnd(t, i) == Some(i1) && FracEnd(t, i1) == Some(i2) && ExpEnd(t, i2) == Some(i3)
    requires EndsPrimitive(At(t, i3))
    ensures var lexeme := t[i..i3];
            && NUL !in lexeme
            && Number(t, i) ==
               if i1 != i3 then Parsed(Scalar(REAL, lexeme), i3)
               else if IntegerFits(lexeme) then Parsed(Scalar(INTEGER, lexeme), i3)
               else NoParse
  {
    forall k | 0 <= k < |t[i..i3]| ensures t[i..i3][k] != NUL {
      assert t[i..i3][k] == At(t, i + k);
    }
  }

  // ---- values and containers (RFC 8259 sections 3 to 5) ----

  predicate Matches(t: string, i: nat, word: string)
  {
    i + |word| <= |t| && forall k {:trigger CharOf(word, k)} | 0 <= k < |word| :: t[i + k] == CharOf(word, k)
  }

  lemma MatchesMeans(t: string, i: nat, word: string, k: nat)
    requires k < |word|
    ensures Matches(t, i, word) ==> At(t, i + k) == word[k]
  {
    assert CharOf(word, k) == word[k];
  }

  lemma MatchesSlice(t: string, i: nat, word: string)
    ensures Matches(t, i, word) <==> i + |word| <= |t| && t[i..i + |word|] == word
  {
    if Matches(t, i, word) {
      forall k | 0 <= k < |word| ensures t[i..i + |word|][k] == word[k] {
        MatchesMeans(t, i, word, k);
      }
    }
    if i + |word| <= |t| && t[i..i + |word|] == word {
      forall k | 0 <= k < |word| ensures t[i + k] == CharOf(word, k) {
        assert t[i..i + |word|][k] == t[i + k];
      }
    }
  }

  function Word(t: string, i: nat, word: string, kind: Kind): (r: Parse<Value>)
    requires word != "" && NUL !in word
    ensures r.Parsed? ==> i < r.next <= |t| && r.value == Scalar(kind, word) && r.value.text == t[i..r.next]
    ensures r.Parsed? ==> EndsPrimitive(At(t, r.next))
  {
    MatchesSlice(t, i, word);
    if Matches(t, i, word) && EndsPrimitive(At(t, i + |word|)) then Parsed(Scalar(kind, word), i + |word|)
    else NoParse
  }

  /** A value other than an object or array. */
  function ScalarValue(t: string, i: nat): (r: Parse<Value>)
    ensures r.Parsed? ==> i < r.next <= |t| && r.value.Scalar? && NUL !in r.value.text
  {
    match At(t, i)
    case '\"' => (var (s, n) :- StringTail(t, i + 1); Parsed(Scalar(TEXT, s), n))
    case 't' => Word(t, i, "true", BOOLEAN)
    case 'f' => Word(t, i, "false", BOOLEAN)
    case 'n' => Word(t, i, "null", NUL_KIND)
    case _ => Number(t, i)
  }

  /** The name of an object member: string, colon, and the blanks before the value. */
  function Name(t: string, i: nat): (r: Parse<string>)
    ensures r.Parsed? ==> i < r.next < |t| && NUL !in r.value
  {
    if At(t, i) != '\"' then NoParse
    else
      var (s, n) :- StringTail(t, i + 1);
      var c := SkipBlanks(t, n);
      if c.None? || t[c.value] != ':' then NoParse
      else
        var v := SkipBlanks(t, c.value + 1);
        if v.None? then NoParse else Parsed(s, v.value)
  }

  /** The name of the next member, if the container's members have names, and where its value starts. */
  function MemberName(t: string, i: nat, isObj: bool): (r: Parse<Option<string>>)
    requires i < |t|
    ensures r.Parsed? ==> i <= r.next < |t|
  {
    if isObj then (var (s, n) :- Name(t, i); Parsed(Some(s), n)) else Parsed(None, i)
  }

  function ParseValue(t: string, i: nat): (r: Parse<Value>)
    requires i < |t|
    ensures r.Parsed? ==> i < r.next <= |t|
    decreases |t| - i, 0
  {
    if t[i] == '{' || t[i] == '[' then
      var isObj := t[i] == '{';
      var (ms, n) :- Members(t, i + 1, isObj);
      Parsed(Container(isObj, ms), n)
    else ScalarValue(t, i)
  }

  /** The members from `i` up to and including the bracket that closes their container. */
  function Members(t: string, i: nat, isObj: bool): (r: Parse<seq<Member>>)
    ensures r.Parsed? ==> i < r.next <= |t|
    decreases |t| - i, 1
  {
    var s := SkipSeparators(t, i);
    if s.None? then NoParse
    else if t[s.value] == Close(isObj) then Parsed([], s.value + 1)
    else
      var (name, v) :- MemberName(t, s.value, isObj);
      var (value, n) :- ParseValue(t, v);
      var (rest, end) :- Members(t, n, isObj);
      Parsed([Member(name, value)] + rest, end)
  }

  /** A whole document: blanks, then one object. */
  function Document(t: string): (r: Parse<Value>)
  {
    var s := SkipBlanks(t, 0);
    if s.None? || t[s.value] != '{' then NoParse else ParseValue(t, s.value)
  }

  // ---- sizes: how many pool slots a value takes ----

  function Size(v: Value): (n: nat)
    ensures n >= 1
    decreases v
  {
    match v
    case Scalar(_, _) => 1
    case Container(_, ms) => 1 + SizeAll(ms)
  }

  function SizeAll(ms: seq<Member>): nat
    decreases ms
  {
    if ms == [] then 0
    else
      var last := ms[|ms| - 1];
      assert last in ms && last.value < last;
      SizeAll(ms[..|ms| - 1]) + Size(last.value)
  }

  lemma SizeAllAppend(ms: seq<Member>, m: Member)
    ensures SizeAll(ms + [m]) == SizeAll(ms) + Size(m.value)
  {
    assert (ms + [m])[..|ms|] == ms;
  }

  lemma {:induction false} SizeAllConcat(a: seq<Member>, b: seq<Member>)
    ensures SizeAll(a + b) == SizeAll(a) + SizeAll(b)
  {
    if b == [] {
      assert a + b == a;
    } else {
      var b', m := b[..|b| - 1], b[|b| - 1];
      SizeAllConcat(a, b');
      SizeAllAppend(a + b', m);
      assert a + b == (a + b') + [m];
    }
  }
}
