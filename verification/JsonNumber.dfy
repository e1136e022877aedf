/**
  Which number literals are accepted: exactly those of RFC 8259 section 6, and of the integers
  among them exactly those in the range of int64_t, while lengths fit `unsigned int`.
 */
module JsonNumber {
  import opened CStrings
  import opened JsonGrammar

  /** number = [ minus ] int [ frac ] [ exp ], by its parts. `exp` holds the marker with its sign, and the digits. */
  datatype Numeral = Numeral(neg: bool, whole: string, frac: Option<string>, exp: Option<(string, string)>)

  predicate AllDigits(s: string) {
    forall k | 0 <= k < |s| :: IsDigit(s[k])
  }

  predicate Digits1(s: string) {
    s != "" && AllDigits(s)
  }

  /** e [ minus / plus ] */
  predicate IsMark(m: string) {
    && 1 <= |m| <= 2
    && (m[0] == 'e' || m[0] == 'E')
    && (|m| == 2 ==> m[1] == '+' || m[1] == '-')
  }

  ghost predicate IsNumeral(n: Numeral) {
    && Digits1(n.whole)
    && (|n.whole| > 1 ==> n.whole[0] != '0')
    && (n.frac.Some? ==> Digits1(n.frac.value))
    && (n.exp.Some? ==> Digits1(n.exp.value.1) && IsMark(n.exp.value.0))
  }

  function PrintInt(n: Numeral): string {
    (if n.neg then "-" else "") + n.whole
  }

  function PrintFrac(n: Numeral): string {
    if n.frac.None? then "" else "." + n.frac.value
  }

  function PrintExp(n: Numeral): string {
    if n.exp.None? then "" else n.exp.value.0 + n.exp.value.1
  }

  function PrintNumeral(n: Numeral): string {
    PrintInt(n) + PrintFrac(n) + PrintExp(n)
  }

  predicate IsInteger(n: Numeral) {
    n.frac.None? && n.exp.None?
  }

  // ---- the numeral a literal denotes ----

  function DigitsValue(s: string): nat
    requires AllDigits(s)
  {
    if s == "" then 0 else 10 * DigitsValue(s[..|s| - 1]) + (s[|s| - 1] as int - '0' as int)
  }

  function IntValue(n: Numeral): int
    requires AllDigits(n.whole)
  {
    var v: int := DigitsValue(n.whole);
    if n.neg then -v else v
  }

  function Pow10(n: nat): nat {
    if n == 0 then 1 else 10 * Pow10(n - 1)
  }

  lemma {:induction false} Pow10Monotone(m: nat, n: nat)
    requires m <= n
    ensures 1 <= Pow10(m) <= Pow10(n)
    decreases m + n
  {
    if m > 0 {
      Pow10Monotone(m - 1, n - 1);
    } else if n > 0 {
      Pow10Monotone(m, n - 1);
    }
  }

  lemma {:induction false} DigitsBounds(s: string)
    requires AllDigits(s)
    ensures DigitsValue(s) < Pow10(|s|)
    ensures s != "" && s[0] != '0' ==> DigitsValue(s) >= Pow10(|s| - 1)
  {
    if s != "" {
      DigitsBounds(s[..|s| - 1]);
    }
  }

  /** Texts of equal length compare at their last characters only when they agree before. */
  lemma {:induction false} LexLessSnoc(a: string, b: string, x: char, y: char)
    requires |a| == |b|
    ensures LexLess(a + [x], b + [y]) <==> LexLess(a, b) || (a == b && x < y)
  {
    if a != "" {
      assert (a + [x])[1..] == a[1..] + [x] && (b + [y])[1..] == b[1..] + [y];
      LexLessSnoc(a[1..], b[1..], x, y);
      assert a == b <==> a[0] == b[0] && a[1..] == b[1..] by {
        assert a == [a[0]] + a[1..] && b == [b[0]] + b[1..];
      }
    }
  }

  /** Digit strings of equal length compare as text exactly as they do as numbers. */
  lemma {:induction false} LexIsNumeric(a: string, b: string)
    requires |a| == |b| && AllDigits(a) && AllDigits(b)
    ensures LexLess(a, b) <==> DigitsValue(a) < DigitsValue(b)
    ensures DigitsValue(a) == DigitsValue(b) ==> a == b
  {
    if a != "" {
      var a', x, b', y := a[..|a| - 1], a[|a| - 1], b[..|b| - 1], b[|b| - 1];
      LexIsNumeric(a', b');
      LexLessSnoc(a', b', x, y);
      assert a == a' + [x] && b == b' + [y];
    }
  }

  lemma DigitsValueSnoc(s: string, c: char)
    requires AllDigits(s) && IsDigit(c)
    ensures AllDigits(s + [c])
    ensures DigitsValue(s + [c]) == 10 * DigitsValue(s) + (c as int - '0' as int)
  {
    assert (s + [c])[..|s|] == s;
  }

  lemma DigitsValueConcat(s: string, a: char, b: char, c: char)
    requires AllDigits(s) && IsDigit(a) && IsDigit(b) && IsDigit(c)
    ensures AllDigits(s + [a, b, c])
    ensures DigitsValue(s + [a, b, c]) ==
            1000 * DigitsValue(s)
            + 100 * (a as int - '0' as int) + 10 * (b as int - '0' as int) + (c as int - '0' as int)
  {
    DigitsValueSnoc(s, a);
    DigitsValueSnoc(s + [a], b);
    DigitsValueSnoc(s + [a] + [b], c);
    assert s + [a, b, c] == s + [a] + [b] + [c];
  }

  // The value of the digits both thresholds start with, three digits at a time.

  lemma Threshold3()
    ensures AllDigits("922") && DigitsValue("922") == 922
  {
    DigitsValueConcat("", '9', '2', '2');
    assert "" + ['9', '2', '2'] == "922";
  }

  lemma Threshold6()
    ensures AllDigits("922337") && DigitsValue("922337") == 922337
  {
    Threshold3();
    DigitsValueConcat("922", '3', '3', '7');
    assert "922" + ['3', '3', '7'] == "922337";
  }

  lemma Threshold9()
    ensures AllDigits("922337203") && DigitsValue("922337203") == 922337203
  {
    Threshold6();
    DigitsValueConcat("922337", '2', '0', '3');
    assert "922337" + ['2', '0', '3'] == "922337203";
  }

  lemma Threshold12()
    ensures AllDigits("922337203685") && DigitsValue("922337203685") == 922337203685
  {
    Threshold9();
    DigitsValueConcat("922337203", '6', '8', '5');
    assert "922337203" + ['6', '8', '5'] == "922337203685";
  }

  lemma Threshold15()
    ensures AllDigits("922337203685477") && DigitsValue("922337203685477") == 922337203685477
  {
    Threshold12();
    DigitsValueConcat("922337203685", '4', '7', '7');
    assert "922337203685" + ['4', '7', '7'] == "922337203685477";
  }

  lemma Threshold18()
    ensures AllDigits("922337203685477580") && DigitsValue("922337203685477580") == 922337203685477580
  {
    Threshold15();
    DigitsValueConcat("922337203685477", '5', '8', '0');
    assert "922337203685477" + ['5', '8', '0'] == "922337203685477580";
  }

  lemma Thresholds()
    ensures AllDigits(MAX_INT64) && DigitsValue(MAX_INT64) == 0x7FFF_FFFF_FFFF_FFFF
    ensures AllDigits(MIN_INT64[1..]) && DigitsValue(MIN_INT64[1..]) == 0x8000_0000_0000_0000
  {
    Threshold18();
    DigitsValueSnoc("922337203685477580", '7');
    DigitsValueSnoc("922337203685477580", '8');
    assert "922337203685477580" + ['7'] == MAX_INT64;
    assert "922337203685477580" + ['8'] == MIN_INT64[1..];
  }

  predicate InInt64(v: int) {
    -0x8000_0000_0000_0000 <= v <= 0x7FFF_FFFF_FFFF_FFFF
  }

  lemma Pow10Nineteen()
    ensures Pow10(18) == 1_000_000_000_000_000_000 && Pow10(19) == 10_000_000_000_000_000_000
  {
    assert Pow10(4) == 10_000;
    assert Pow10(8) == 100_000_000;
    assert Pow10(12) == 1_000_000_000_000;
    assert Pow10(16) == 10_000_000_000_000_000;
  }

  /** Digits without leading zeros against a threshold of 19 digits, by length first. */
  lemma DigitsAgainst(s: string, bound: string)
    requires Digits1(s) && (|s| > 1 ==> s[0] != '0')
    requires AllDigits(bound) && |bound| == 19 && DigitsValue(bound) >= Pow10(18)
    ensures DigitsValue(s) <= DigitsValue(bound) <==> |s| <= 19 && (|s| == 19 ==> !LexLess(bound, s))
  {
    DigitsBounds(s);
    DigitsBounds(bound);
    if |s| < 19 {
      Pow10Monotone(|s|, 18);
    } else if |s| > 19 {
      Pow10Monotone(19, |s| - 1);
    } else {
      LexIsNumeric(bound, s);
    }
  }

  lemma LexLessTail(a: string, b: string)
    requires a != "" && b != "" && a[0] == b[0]
    ensures LexLess(a, b) <==> LexLess(a[1..], b[1..])
  {
  }

  /** The parser's overflow test, with lengths that do not wrap, is the range of int64_t. */
  lemma IntegerRange(n: Numeral)
    requires IsNumeral(n) && IsInteger(n) && |PrintNumeral(n)| < 0x1_0000_0000
    ensures IntegerFits(PrintNumeral(n)) <==> InInt64(IntValue(n))
  {
    var lexeme, limit := PrintNumeral(n), if n.neg then MIN_INT64 else MAX_INT64;
    Thresholds();
    Pow10Nineteen();
    assert n.neg ==> |MIN_INT64| == 20;
    assert !n.neg ==> |MAX_INT64| == 19;
    RangeAgainst(n, limit);
  }

  /** The same, for either threshold. */
  lemma RangeAgainst(n: Numeral, limit: string)
    requires IsNumeral(n) && IsInteger(n) && |PrintNumeral(n)| < 0x1_0000_0000
    requires limit != "" && (n.neg <==> limit[0] == '-')
    requires var bound := if n.neg then limit[1..] else limit;
             AllDigits(bound) && |bound| == 19 && DigitsValue(bound) >= Pow10(18)
    ensures var bound := if n.neg then limit[1..] else limit;
            var lexeme := PrintNumeral(n);
            && (At(lexeme, 0) == '-' <==> n.neg)
            && (DigitsValue(n.whole) <= DigitsValue(bound) <==>
                |lexeme| <= |limit| && (|lexeme| == |limit| ==> !LexLess(limit, lexeme)))
  {
    var lexeme := PrintNumeral(n);
    if n.neg {
      assert lexeme[1..] == n.whole;
      DigitsAgainst(n.whole, limit[1..]);
      LexLessTail(limit, lexeme);
    } else {
      assert lexeme == n.whole;
      DigitsAgainst(n.whole, limit);
    }
  }

  /**
    Without that bound on its length the test goes wrong exactly when the length, which the code
    keeps in an `unsigned int`, wraps and the wrapped length passes.
   */
  lemma IntegerRangeExact(n: Numeral)
    requires IsNumeral(n) && IsInteger(n)
    ensures var lexeme := PrintNumeral(n);
            var limit := if n.neg then MIN_INT64 else MAX_INT64;
            (IntegerFits(lexeme) <==> InInt64(IntValue(n))) <==>
            (|lexeme| < 0x1_0000_0000 || |lexeme| % 0x1_0000_0000 > |limit| ||
             (|lexeme| % 0x1_0000_0000 == |limit| && LexLess(limit, lexeme)))
  {
    if |PrintNumeral(n)| < 0x1_0000_0000 {
      IntegerRange(n);
    } else {
      DigitsBounds(n.whole);
      Pow10Nineteen();
      Pow10Monotone(19, |n.whole| - 1);
    }
  }

  /** A literal the wrapped length lets through: 2^32 + 1 digits, far above every int64_t. */
  lemma IntegerRangeFails() returns (n: Numeral)
    ensures IsNumeral(n) && IsInteger(n) && !InInt64(IntValue(n))
    ensures IntegerFits(PrintNumeral(n))
  {
    n := Numeral(false, seq(0x1_0000_0001, i => '1'), None, None);
    assert PrintNumeral(n) == n.whole;
    IntegerRangeExact(n);
  }

  // ---- the recursive descent recognises exactly the numerals ----

  lemma MatchesSplit(t: string, i: nat, a: string, b: string)
    requires Matches(t, i, a + b)
    ensures Matches(t, i, a) && Matches(t, i + |a|, b)
  {
    MatchesSlice(t, i, a + b);
    MatchesSlice(t, i, a);
    MatchesSlice(t, i + |a|, b);
    assert t[i..i + |a|] == (a + b)[..|a|] && t[i + |a|..i + |a| + |b|] == (a + b)[|a|..];
  }

  lemma MatchesAt(t: string, i: nat, a: string, k: nat)
    requires Matches(t, i, a) && k < |a|
    ensures At(t, i + k) == a[k]
  {
    MatchesMeans(t, i, a, k);
  }

  lemma {:induction false} DigitsEndReads(t: string, i: nat, s: string)
    requires AllDigits(s) && Matches(t, i, s) && !IsDigit(At(t, i + |s|))
    ensures DigitsEnd(t, i) == i + |s|
    decreases |s|
  {
    if s != "" {
      MatchesAt(t, i, s, 0);
      assert s == [s[0]] + s[1..];
      MatchesSplit(t, i, [s[0]], s[1..]);
      DigitsEndReads(t, i + 1, s[1..]);
    }
  }

  lemma Digits1EndReads(t: string, i: nat, s: string)
    requires Digits1(s) && Matches(t, i, s) && !IsDigit(At(t, i + |s|))
    ensures Digits1End(t, i) == Some(i + |s|)
  {
    DigitsEndReads(t, i, s);
    MatchesAt(t, i, s, 0);
  }

  lemma IntEndReads(t: string, i: nat, n: Numeral)
    requires IsNumeral(n) && Matches(t, i, PrintInt(n)) && !IsDigit(At(t, i + |PrintInt(n)|))
    ensures IntEnd(t, i) == Some(i + |PrintInt(n)|)
  {
    MatchesSplit(t, i, if n.neg then "-" else "", n.whole);
    MatchesAt(t, i, PrintInt(n), 0);
    var d := if n.neg then i + 1 else i;
    MatchesAt(t, d, n.whole, 0);
    DigitsEndReads(t, d, n.whole);
    if |n.whole| > 1 {
      MatchesAt(t, d, n.whole, 1);
    }
  }

  lemma FracEndReads(t: string, i: nat, n: Numeral)
    requires IsNumeral(n) && Matches(t, i, PrintFrac(n))
    requires !IsDigit(At(t, i + |PrintFrac(n)|)) && At(t, i + |PrintFrac(n)|) != '.'
    ensures FracEnd(t, i) == Some(i + |PrintFrac(n)|)
  {
    if n.frac.Some? {
      MatchesSplit(t, i, ".", n.frac.value);
      MatchesAt(t, i, ".", 0);
      Digits1EndReads(t, i + 1, n.frac.value);
    }
  }

  lemma ExpEndReads(t: string, i: nat, n: Numeral)
    requires IsNumeral(n) && Matches(t, i, PrintExp(n)) && EndsPrimitive(At(t, i + |PrintExp(n)|))
    ensures ExpEnd(t, i) == Some(i + |PrintExp(n)|)
  {
    if n.exp.Some? {
      var (mark, digits) := n.exp.value;
      MatchesSplit(t, i, mark, digits);
      MatchesAt(t, i, mark, 0);
      MatchesAt(t, i + |mark|, digits, 0);
      if |mark| == 2 {
        MatchesAt(t, i, mark, 1);
      }
      Digits1EndReads(t, i + |mark|, digits);
    }
  }

  /** After the integer or fraction part comes neither a digit nor, after the fraction, a point. */
  lemma PartsEnd(t: string, i: nat, n: Numeral)
    requires IsNumeral(n) && Matches(t, i, PrintExp(n)) && EndsPrimitive(At(t, i + |PrintExp(n)|))
    ensures !IsDigit(At(t, i)) && At(t, i) != '.'
  {
    if n.exp.Some? {
      MatchesAt(t, i, PrintExp(n), 0);
    }
  }

  lemma MatchesParts(t: string, i: nat, n: Numeral)
    requires Matches(t, i, PrintNumeral(n))
    ensures Matches(t, i, PrintInt(n)) && Matches(t, i + |PrintInt(n)|, PrintFrac(n))
    ensures Matches(t, i + |PrintInt(n)| + |PrintFrac(n)|, PrintExp(n))
  {
    MatchesSplit(t, i, PrintInt(n) + PrintFrac(n), PrintExp(n));
    MatchesSplit(t, i, PrintInt(n), PrintFrac(n));
  }

  lemma EndsRead(t: string, i: nat, i1: nat, i2: nat, i3: nat, n: Numeral)
    requires IsNumeral(n) && Matches(t, i, PrintInt(n)) && Matches(t, i1, PrintFrac(n)) && Matches(t, i2, PrintExp(n))
    requires i1 == i + |PrintInt(n)| && i2 == i1 + |PrintFrac(n)| && i3 == i2 + |PrintExp(n)|
    requires EndsPrimitive(At(t, i3))
    ensures IntEnd(t, i) == Some(i1) && FracEnd(t, i1) == Some(i2) && ExpEnd(t, i2) == Some(i3)
  {
    PartsEnd(t, i2, n);
    ExpEndReads(t, i2, n);
    FracEndReads(t, i1, n);
    if n.frac.Some? {
      MatchesAt(t, i1, PrintFrac(n), 0);
    }
    IntEndReads(t, i, n);
  }

  lemma LexemeEnds(t: string, i: nat, n: Numeral) returns (i1: nat, i2: nat)
    requires IsNumeral(n) && Matches(t, i, PrintNumeral(n))
    requires EndsPrimitive(At(t, i + |PrintNumeral(n)|))
    ensures IntEnd(t, i) == Some(i1) && FracEnd(t, i1) == Some(i2) && ExpEnd(t, i2) == Some(i + |PrintNumeral(n)|)
    ensures i1 == i + |PrintNumeral(n)| <==> IsInteger(n)
  {
    MatchesParts(t, i, n);
    PrintedLength(n);
    i1, i2 := i + |PrintInt(n)|, i + |PrintInt(n)| + |PrintFrac(n)|;
    EndsRead(t, i, i1, i2, i + |PrintNumeral(n)|, n);
  }

  lemma PrintedLength(n: Numeral)
    requires IsNumeral(n)
    ensures |PrintNumeral(n)| == |PrintInt(n)| + |PrintFrac(n)| + |PrintExp(n)|
    ensures |PrintFrac(n)| + |PrintExp(n)| == 0 <==> IsInteger(n)
  {
  }

  lemma NumberAt(t: string, i: nat, lexeme: string, i1: nat, i2: nat)
    requires Matches(t, i, lexeme) && EndsPrimitive(At(t, i + |lexeme|))
    requires IntEnd(t, i) == Some(i1) && FracEnd(t, i1) == Some(i2) && ExpEnd(t, i2) == Some(i + |lexeme|)
    ensures Number(t, i) ==
            if i1 != i + |lexeme| then Parsed(Scalar(REAL, lexeme), i + |lexeme|)
            else if IntegerFits(lexeme) then Parsed(Scalar(INTEGER, lexeme), i + |lexeme|)
            else NoParse
  {
    MatchesSlice(t, i, lexeme);
    NumberFromEnds(t, i, i1, i2, i + |lexeme|);
  }

  /** Every numeral followed by the end of a primitive is read whole, and kept unless it is an integer out of range. */
  lemma NumberReads(t: string, i: nat, n: Numeral)
    requires IsNumeral(n) && Matches(t, i, PrintNumeral(n))
    requires EndsPrimitive(At(t, i + |PrintNumeral(n)|))
    ensures var lexeme := PrintNumeral(n);
            Number(t, i) ==
            if !IsInteger(n) then Parsed(Scalar(REAL, lexeme), i + |lexeme|)
            else if IntegerFits(lexeme) then Parsed(Scalar(INTEGER, lexeme), i + |lexeme|)
            else NoParse
  {
    var i1, i2 := LexemeEnds(t, i, n);
    NumberAt(t, i, PrintNumeral(n), i1, i2);
  }

  lemma IntEndSound(t: string, i: nat) returns (neg: bool, whole: string)
    requires IntEnd(t, i).Some?
    ensures Digits1(whole) && (|whole| > 1 ==> whole[0] != '0')
    ensures t[i..IntEnd(t, i).value] == (if neg then "-" else "") + whole
  {
    neg := At(t, i) == '-';
    var d := if neg then i + 1 else i;
    whole := t[d..IntEnd(t, i).value];
    forall k | 0 <= k < |whole| ensures IsDigit(whole[k]) {
      assert whole[k] == At(t, d + k);
    }
  }

  lemma Digits1EndSound(t: string, i: nat)
    requires Digits1End(t, i).Some?
    ensures Digits1(t[i..Digits1End(t, i).value])
  {
    var s := t[i..Digits1End(t, i).value];
    forall k | 0 <= k < |s| ensures IsDigit(s[k]) {
      assert s[k] == At(t, i + k);
    }
  }

  lemma ExpEndSound(t: string, i: nat) returns (exp: Option<(string, string)>)
    requires i <= |t| && ExpEnd(t, i).Some?
    ensures exp.Some? ==> Digits1(exp.value.1) && IsMark(exp.value.0)
    ensures t[i..ExpEnd(t, i).value] == if exp.None? then "" else exp.value.0 + exp.value.1
    ensures exp.None? <==> ExpEnd(t, i).value == i
  {
    exp := None;
    if At(t, i) == 'e' || At(t, i) == 'E' {
      var signed := At(t, i + 1) == '-' || At(t, i + 1) == '+';
      var d := if signed then i + 2 else i + 1;
      Digits1EndSound(t, d);
      var mark := if signed then [t[i], t[i + 1]] else [t[i]];
      exp := Some((mark, t[d..ExpEnd(t, i).value]));
    }
  }

  lemma FracEndSound(t: string, i: nat) returns (frac: Option<string>)
    requires i <= |t| && FracEnd(t, i).Some?
    ensures frac.Some? ==> Digits1(frac.value)
    ensures t[i..FracEnd(t, i).value] == if frac.None? then "" else "." + frac.value
    ensures frac.None? <==> FracEnd(t, i).value == i
  {
    frac := None;
    if At(t, i) == '.' {
      Digits1EndSound(t, i + 1);
      frac := Some(t[i + 1..FracEnd(t, i).value]);
    }
  }

  lemma NumberEnds(t: string, i: nat) returns (e1: nat, e2: nat, e3: nat)
    requires Number(t, i).Parsed?
    ensures IntEnd(t, i) == Some(e1) && i <= e1 <= |t|
    ensures FracEnd(t, e1) == Some(e2) && e1 <= e2 <= |t|
    ensures ExpEnd(t, e2) == Some(e3) && e2 <= e3 <= |t|
    ensures Number(t, i).value == Scalar(if e1 == e3 then INTEGER else REAL, t[i..e3])
    ensures e1 == e3 ==> IntegerFits(t[i..e3])
  {
    e1 := IntEnd(t, i).value;
    e2 := FracEnd(t, e1).value;
    e3 := ExpEnd(t, e2).value;
  }

  lemma Join3(t: string, i: nat, e1: nat, e2: nat, e3: nat)
    requires i <= e1 <= e2 <= e3 <= |t|
    ensures t[i..e3] == t[i..e1] + t[e1..e2] + t[e2..e3]
  {
  }

  /** Whatever is read as a number is a numeral, and an integer among them passed the overflow test. */
  lemma NumberSound(t: string, i: nat) returns (n: Numeral)
    requires Number(t, i).Parsed?
    ensures IsNumeral(n) && PrintNumeral(n) == Number(t, i).value.text
    ensures Number(t, i).value.kind == if IsInteger(n) then INTEGER else REAL
    ensures IsInteger(n) ==> IntegerFits(PrintNumeral(n))
  {
    var e1, e2, e3 := NumberEnds(t, i);
    var neg, whole := IntEndSound(t, i);
    var frac := FracEndSound(t, e1);
    var exp := ExpEndSound(t, e2);
    n := Numeral(neg, whole, frac, exp);
    Join3(t, i, e1, e2, e3);
    assert PrintNumeral(n) == t[i..e3];
  }
}
