/**
  The parts of the parser that read one token in place: blanks, strings, words and numbers.

  Each method gets the buffer, an index into it, and (ghost) the text the buffer held at first; it
  returns the index after the token, or NULL, and agrees with the function of the grammar of the same name.
 */
module JsonScan {
  import opened CStrings
  import opened JsonGrammar
  import opened JsonTree

  const BLANKS: string := " \n\r\t\U{0C}"
  const END_OF_BLOCK: string := "}]"

  method IsOneOfThem(ch: char, chars: string) returns (r: bool)
    ensures r <==> ch in chars
  {
    var i := 0;
    while i < |chars|
      invariant 0 <= i <= |chars|
      invariant ch !in chars[..i]
    {
      if ch == chars[i] {
        return true;
      }
      i := i + 1;
    }
    return false;
  }

  /** goBlank */
  method GoBlank(buf: array<char>, ghost t: string, p: nat) returns (r: int)
    requires Unread(buf[..], t, p)
    ensures r == if SkipBlanks(t, p).Some? then SkipBlanks(t, p).value else NULL
  {
    var i := p;
    while buf[i] != NUL
      invariant p <= i <= |t|
      invariant SkipBlanks(t, i) == SkipBlanks(t, p)
      decreases |t| - i
    {
      var blank := IsOneOfThem(buf[i], BLANKS);
      if !blank {
        return i;
      }
      i := i + 1;
    }
    return NULL;
  }

  /** goNum */
  method GoNum(buf: array<char>, ghost t: string, p: nat) returns (r: int)
    requires Unread(buf[..], t, p)
    ensures r == if At(t, DigitsEnd(t, p)) == NUL then NULL else DigitsEnd(t, p)
  {
    var i := p;
    while buf[i] != NUL
      invariant p <= i <= |t|
      invariant DigitsEnd(t, i) == DigitsEnd(t, p)
      decreases |t| - i
    {
      if !IsDigit(buf[i]) {
        return i;
      }
      i := i + 1;
    }
    return NULL;
  }

  /** getCharFromUnicode */
  method GetCharFromUnicode(buf: array<char>, ghost t: string, p: nat) returns (ch: char)
    requires Unread(buf[..], t, p)
    ensures ch ==
            if IsHexDigit(At(t, p)) && IsHexDigit(At(t, p + 1)) && IsHexDigit(At(t, p + 2)) && IsHexDigit(At(t, p + 3))
            then '?' else NUL
    ensures ch != NUL ==> p + 4 <= |t|
  {
    var i := 0;
    while i < 4
      invariant 0 <= i <= 4 && p + i <= |t|
      invariant forall k | p <= k < p + i :: IsHexDigit(At(t, k))
    {
      if !IsHexDigit(buf[p + i]) {
        return NUL;
      }
      i := i + 1;
    }
    assert IsHexDigit(At(t, p)) && IsHexDigit(At(t, p + 1)) && IsHexDigit(At(t, p + 2)) && IsHexDigit(At(t, p + 3));
    return '?';
  }

  /** Reading on from `head` with `done` decoded so far gives what reading from `p` gives. */
  ghost predicate StringSoFar(t: string, p: nat, head: nat, done: string) {
    var whole, rest := StringTail(t, p), StringTail(t, head);
    if rest.NoParse? then whole.NoParse? else whole == Parsed(done + rest.value, rest.next)
  }

  lemma StringStep(t: string, p: nat, head: nat, done: string)
    requires StringSoFar(t, p, head, done)
    requires At(t, head) >= ' ' && t[head] != '\"'
    ensures var c := StringChar(t, head);
            if c.NoParse? then StringTail(t, p).NoParse? else StringSoFar(t, p, c.next, done + [c.value])
  {
    var c := StringChar(t, head);
    if c.Parsed? {
      var rest := StringTail(t, c.next);
      if rest.Parsed? {
        assert done + ([c.value] + rest.value) == (done + [c.value]) + rest.value;
      }
    }
  }

  /** One turn of the loop in parseString: decodes one character; `head'` is the index after it, or NULL. */
  method DecodeChar(buf: array<char>, ghost t: string, head: nat) returns (c: char, head': int)
    requires Unread(buf[..], t, head) && At(t, head) >= ' ' && t[head] != '\"'
    ensures if StringChar(t, head).NoParse? then head' == NULL
            else c == StringChar(t, head).value && head' == StringChar(t, head).next
  {
    if buf[head] == '\\' {
      if buf[head + 1] == 'u' {
        var ch := GetCharFromUnicode(buf, t, head + 2);
        if ch == NUL {
          return NUL, NULL;
        }
        return ch, head + 6;
      } else {
        var esc := Unescape(buf[head + 1]);
        if esc == NUL {
          return NUL, NULL;
        }
        return esc, head + 2;
      }
    } else {
      return buf[head], head + 1;
    }
  }

  /** parseString: decodes in place, the write index `tail` never ahead of the read index `head`. */
  method ParseString(buf: array<char>, ghost t: string, p: nat) returns (r: int)
    requires Unread(buf[..], t, p)
    modifies buf
    ensures StringTail(t, p).NoParse? ==> r == NULL
    ensures StringTail(t, p).Parsed? ==>
              && r == StringTail(t, p).next
              && StrAt(buf[..], r, p, StringTail(t, p).value)
              && Unread(buf[..], t, r)
              && SameText(old(buf[..]), buf[..], p, p)
  {
    var head, tail := p, p;
    ghost var done := "";
    assert StringTail(t, p).Parsed? ==> done + StringTail(t, p).value == StringTail(t, p).value;
    while buf[head] >= ' '
      invariant p <= tail <= head <= |t|
      invariant Unread(buf[..], t, head)
      invariant SameText(old(buf[..]), buf[..], p, p)
      invariant buf[p..tail] == done && NUL !in done
      invariant StringSoFar(t, p, head, done)
      decreases |t| - head
    {
      if buf[head] == '\"' {
        buf[tail] := NUL;
        assert buf[p..tail] == done;
        assert done + "" == done;
        return head + 1;
      }
      StringStep(t, p, head, done);
      var c, head' := DecodeChar(buf, t, head);
      if head' == NULL {
        return NULL;
      }
      buf[tail] := c;
      done := done + [c];
      head, tail := head', tail + 1;
    }
    return NULL;
  }

  /** checkStr: the index after `word` if the buffer has it at p. */
  method CheckStr(buf: array<char>, ghost t: string, p: nat, word: string) returns (r: int)
    requires Unread(buf[..], t, p) && NUL !in word
    ensures r == if Matches(t, p, word) then p + |word| else NULL
  {
    var i := 0;
    while i < |word|
      invariant 0 <= i <= |word| && p + i <= |t|
      invariant forall k | 0 <= k < i :: t[p + k] == word[k]
    {
      if buf[p + i] != word[i] {
        MatchesMeans(t, p, word, i);
        return NULL;
      }
      i := i + 1;
    }
    return p + |word|;
  }

  /** isEndOfPrimitive */
  method IsEndOfPrimitive(ch: char) returns (r: bool)
    ensures r <==> EndsPrimitive(ch)
  {
    var blank := IsOneOfThem(ch, BLANKS);
    var end := IsOneOfThem(ch, END_OF_BLOCK);
    return ch == ',' || blank || end;
  }

  /** setToNull: ends the primitive at p, except at a bracket, whose closing will end it. */
  method SetToNull(buf: array<char>, ghost t: string, p: nat) returns (r: nat)
    requires Unread(buf[..], t, p) && p < |t| && EndsPrimitive(t[p])
    modifies buf
    ensures p <= r <= p + 1 && Unread(buf[..], t, r)
    ensures SkipSeparators(t, r) == SkipSeparators(t, p)
    ensures SameText(old(buf[..]), buf[..], p, p)
    ensures p < SealedLim(buf[..], r) <= |buf[..]| && Sealed(buf[..], r)[p] == NUL
  {
    var end := IsOneOfThem(buf[p], END_OF_BLOCK);
    if !end {
      buf[p] := NUL;
      return p + 1;
    }
    return p;
  }

  /** What the four readers of scalars leave behind: the value read whole, its text a C string at `pos`. */
  ghost predicate ScalarRead(b0: string, b: string, t: string, p: nat, pos: int, r: int, v: Parse<Value>)
    requires v.Parsed? && v.value.Scalar?
  {
    && v.next <= r
    && Unread(b, t, r)
    && SkipSeparators(t, r) == SkipSeparators(t, v.next)
    && SameText(b0, b, p, p)
    && StrAt(Sealed(b, r), SealedLim(b, r), pos, v.value.text)
  }

  /** The text of a primitive, once `SetToNull` has ended it. */
  lemma PrimitiveText(b0: string, b: string, t: string, p: nat, n: nat, r: nat, s: string)
    requires Unread(b0, t, p) && p <= n < |t| && t[p..n] == s && NUL !in s
    requires SameText(b0, b, n, n) && n < SealedLim(b, r) <= |b| && n <= r && Sealed(b, r)[n] == NUL
    ensures StrAt(Sealed(b, r), SealedLim(b, r), p, s)
  {
    forall k | 0 <= k < |s| ensures Sealed(b, r)[p + k] == s[k] {
      assert t[p..n][k] == t[p + k];
    }
    assert Sealed(b, r)[p..p + |s|] == s;
  }

  /** primitiveValue */
  method PrimitiveValue(buf: array<char>, ghost t: string, p: nat, word: string, kind: Kind) returns (r: int)
    requires Unread(buf[..], t, p) && NUL !in word && word != ""
    modifies buf
    ensures Word(t, p, word, kind).NoParse? ==> r == NULL
    ensures Word(t, p, word, kind).Parsed? ==> ScalarRead(old(buf[..]), buf[..], t, p, p, r, Word(t, p, word, kind))
  {
    var n := CheckStr(buf, t, p, word);
    if n == NULL {
      return NULL;
    }
    var end := IsEndOfPrimitive(buf[n]);
    if !end {
      return NULL;
    }
    r := SetToNull(buf, t, n);
    MatchesSlice(t, p, word);
    PrimitiveText(old(buf[..]), buf[..], t, p, n, r, word);
  }

  /** expValue; returns NULL also when the text ends in digits, as goNum does. */
  method ExpValue(buf: array<char>, ghost t: string, p: nat) returns (r: int)
    requires Unread(buf[..], t, p) && 0 < p && (At(t, p - 1) == 'e' || At(t, p - 1) == 'E')
    ensures var e := ExpEnd(t, p - 1);
            if e.None? || At(t, e.value) == NUL then r == NULL else r == e.value
  {
    var i := p;
    if buf[i] == '-' || buf[i] == '+' {
      i := i + 1;
    }
    if !IsDigit(buf[i]) {
      return NULL;
    }
    r := GoNum(buf, t, i + 1);
  }

  /** fraqValue */
  method FraqValue(buf: array<char>, ghost t: string, p: nat) returns (r: int)
    requires Unread(buf[..], t, p)
    ensures var e := Digits1End(t, p);
            if e.None? || At(t, e.value) == NUL then r == NULL else r == e.value
  {
    if !IsDigit(buf[p]) {
      return NULL;
    }
    r := GoNum(buf, t, p + 1);
  }

  /** The first part of numValue, up to the fraction. */
  method IntPart(buf: array<char>, ghost t: string, p: nat) returns (r: int)
    requires Unread(buf[..], t, p)
    ensures var e := IntEnd(t, p);
            if e.None? || At(t, e.value) == NUL then r == NULL || (e.Some? && r == e.value) else r == e.value
  {
    var i := p;
    if buf[i] == '-' {
      i := i + 1;
    }
    if !IsDigit(buf[i]) {
      return NULL;
    }
    if buf[i] != '0' {
      r := GoNum(buf, t, i);
    } else if IsDigit(buf[i + 1]) {
      return NULL;
    } else {
      return i + 1;
    }
  }

  /** The fraction and exponent parts of numValue. */
  method RealPart(buf: array<char>, ghost t: string, p: nat) returns (r: int, kind: Kind)
    requires Unread(buf[..], t, p)
    ensures var e2 := FracEnd(t, p);
            if e2.None? then r == NULL
            else
              var e3 := ExpEnd(t, e2.value);
              if e3.None? then r == NULL
              else if r == NULL then At(t, e3.value) == NUL
              else r == e3.value && kind == if r == p then INTEGER else REAL
  {
    r, kind := p, INTEGER;
    if buf[r] == '.' {
      r := FraqValue(buf, t, r + 1);
      if r == NULL {
        return;
      }
      kind := REAL;
    }
    if buf[r] == 'e' || buf[r] == 'E' {
      r := ExpValue(buf, t, r + 1);
      kind := REAL;
    }
  }

  /** The lexical part of numValue: the end of the number and whether it is a real. */
  method NumEnd(buf: array<char>, ghost t: string, p: nat) returns (r: int, kind: Kind)
    requires Unread(buf[..], t, p)
    ensures r == NULL ==> Number(t, p).NoParse?
    ensures r != NULL ==>
              && p < r < |t| && EndsPrimitive(t[r]) && (kind == REAL || kind == INTEGER) && NUL !in t[p..r]
              && Number(t, p) == if kind == REAL || IntegerFits(t[p..r]) then Parsed(Scalar(kind, t[p..r]), r)
                else NoParse
  {
    kind := INTEGER;
    r := IntPart(buf, t, p);
    if r == NULL {
      return;
    }
    ghost var i1 := r;
    r, kind := RealPart(buf, t, r);
    if r == NULL {
      return;
    }
    var end := IsEndOfPrimitive(buf[r]);
    if !end {
      r := NULL;
      return;
    }
    NumberFromEnds(t, p, i1, FracEnd(t, i1).value, r);
  }

  /** strcmp of a constant against the C string s at `pos`. */
  method StrCmp(a: string, buf: array<char>, pos: nat, ghost s: string) returns (r: int)
    requires StrAt(buf[..], buf.Length, pos, s) && NUL !in a
    ensures r < 0 <==> LexLess(a, s)
    ensures r == 0 <==> a == s
  {
    var i := 0;
    while i < |a| && buf[pos + i] == a[i]
      invariant 0 <= i <= |a| && i <= |s| && a[..i] == s[..i]
      invariant LexLess(a, s) <==> LexLess(a[i..], s[i..])
      decreases |a| - i
    {
      assert buf[..][pos..pos + |s|] == s;
      i := i + 1;
    }
    assert buf[..][pos..pos + |s|] == s;
    assert i < |s| ==> buf[pos + i] == s[i];
    assert a == a[..i] + a[i..] && s == s[..i] + s[i..];
    var ch := if i < |a| then a[i] else NUL;
    r := ch as int - buf[pos + i] as int;
  }

  /** The overflow test of numValue; it ends the number with a NUL while it compares. */
  method IntegerCheck(buf: array<char>, ghost t: string, value: nat, ptr: nat) returns (ok: bool)
    requires Unread(buf[..], t, value) && value < ptr < |t| && NUL !in t[value..ptr]
    modifies buf
    ensures ok <==> IntegerFits(t[value..ptr])
    ensures ok ==> buf[..] == old(buf[..])
  {
    ghost var lexeme := t[value..ptr];
    var negative := buf[value] == '-';
    var threshold := if negative then MIN_INT64 else MAX_INT64;
    var maxdigits := |threshold|;
    var len := (ptr - value) % 0x1_0000_0000;
    if len > maxdigits {
      return false;
    }
    if len == maxdigits {
      var tmp := buf[ptr];
      buf[ptr] := NUL;
      assert buf[..][value..value + |lexeme|] == lexeme;
      var order := StrCmp(threshold, buf, value, lexeme);
      if 0 > order {
        return false;
      }
      buf[ptr] := tmp;
    }
    return true;
  }

  /** numValue */
  method NumValue(buf: array<char>, ghost t: string, p: nat) returns (r: int, kind: Kind)
    requires Unread(buf[..], t, p)
    modifies buf
    ensures Number(t, p).NoParse? ==> r == NULL
    ensures Number(t, p).Parsed? ==>
              ScalarRead(old(buf[..]), buf[..], t, p, p, r, Number(t, p)) && kind == Number(t, p).value.kind
  {
    r, kind := NumEnd(buf, t, p);
    if r == NULL {
      return;
    }
    if kind == INTEGER {
      var ok := IntegerCheck(buf, t, p, r);
      if !ok {
        r := NULL;
        return;
      }
    }
    ghost var n := r;
    r := SetToNull(buf, t, r);
    PrimitiveText(old(buf[..]), buf[..], t, p, n, r, t[p..n]);
  }
}
