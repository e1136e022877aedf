/**
  Query strings: url_encode (RPI/util.c) against url_decode, find_var_value and sb_get_var_ex (RPI/sandbird.c).

  Characters are bytes, 0 to 255. A query is pairs name=value separated by '&', up to a blank, '?' or the end.
 */
module Query {
  import opened CStrings
  import opened Ascii
  import opened SbBuffer
  import opened Seqs
  import SbRequest

  const SB_ETRUNCATED: int := -3
  const SB_ENOTFOUND: int := -7

  /** The codes of RPI/sandbird.h that a caller of these functions sees. */
  lemma ErrorCodes()
    ensures SB_ESUCCESS == 0 && SB_ETRUNCATED == -3 && SB_ENOTFOUND == -7
  {
  }

  predicate IsByte(c: char) {
    c as int < 0x100
  }

  ghost predicate Bytes(t: string) {
    forall c | c in t :: IsByte(c)
  }

  // ---- url_encode ----

  predicate IsAlnum(c: char) {
    IsDigit(c) || 'a' <= c <= 'z' || 'A' <= c <= 'Z'
  }

  predicate Kept(c: char) {
    IsAlnum(c) || c in "-_.~+:/@"
  }

  function ToHex(n: int): (c: char)
    requires 0 <= n < 16
    ensures IsHexDigit(c) && HexToInt(c) == n
  {
    if n < 10 then ('0' as int + n) as char else ('a' as int + n - 10) as char
  }

  function EncodeChar(c: char): (s: string)
    requires IsByte(c)
    ensures 1 <= |s| <= 3
  {
    if Kept(c) then [c] else ['%', ToHex(c as int / 16), ToHex(c as int % 16)]
  }

  function Encode(v: string): (s: string)
    requires Bytes(v)
    ensures |s| <= 3 * |v|
  {
    if v == "" then "" else EncodeChar(v[0]) + Encode(v[1..])
  }

  lemma {:induction false} EncodeAppend(v: string, c: char)
    requires Bytes(v) && IsByte(c)
    ensures Bytes(v + [c]) && Encode(v + [c]) == Encode(v) + EncodeChar(c)
  {
    if v == "" {
      assert [c][1..] == "";
    } else {
      EncodeAppend(v[1..], c);
      EncodeFirst(v + [c], v[0], v[1..] + [c]);
      assert EncodeChar(v[0]) + (Encode(v[1..]) + EncodeChar(c)) == Encode(v) + EncodeChar(c);
    }
  }

  lemma EncodeFirst(v: string, first: char, rest: string)
    requires v == [first] + rest && Bytes(v) && IsByte(first) && Bytes(rest)
    ensures Encode(v) == EncodeChar(first) + Encode(rest)
  {
    assert v[0] == first && v[1..] == rest;
  }

  /** The codes url_encode leaves as they are: letters, digits and -_.~+:/@ */
  predicate StaysItself(code: int) {
    || IsLetterOrDigit(code) || code == 0x2D || code == 0x5F || code == 0x2E || code == 0x7E
    || code == 0x2B || code == 0x3A || code == 0x2F || code == 0x40
  }

  const HEX_DIGITS: string := "0123456789abcdef"

  /** Every other character becomes '%' and the two digits of its code. */
  lemma EncodedAs(c: char)
    requires IsByte(c)
    ensures Kept(c) <==> StaysItself(c as int)
    ensures EncodeChar(c) ==
            if StaysItself(c as int) then [c] else ['%', HEX_DIGITS[c as int / 16], HEX_DIGITS[c as int % 16]]
  {
    ToHexIs(c as int / 16);
    ToHexIs(c as int % 16);
  }

  lemma ToHexIs(n: nat)
    requires n < 16
    ensures ToHex(n) == HEX_DIGITS[n]
  {
  }

  /** How many characters of the value do not stay themselves. */
  function Others(v: string): nat {
    if v == "" then 0 else (if StaysItself(v[0] as int) then 0 else 1) + Others(v[1..])
  }

  function Percents(s: string): nat {
    if s == "" then 0 else (if s[0] as int == 0x25 then 1 else 0) + Percents(s[1..])
  }

  lemma {:induction false} PercentsConcat(a: string, b: string)
    ensures Percents(a + b) == Percents(a) + Percents(b)
  {
    if a == "" {
      assert a + b == b;
    } else {
      PercentsConcat(a[1..], b);
      assert (a + b)[1..] == a[1..] + b;
    }
  }

  lemma PercentsOfChar(c: char)
    requires IsByte(c)
    ensures Percents(EncodeChar(c)) == if StaysItself(c as int) then 0 else 1
    ensures |EncodeChar(c)| == if StaysItself(c as int) then 1 else 3
  {
    EncodedAs(c);
    if !StaysItself(c as int) {
      HexIsNoPercent(c as int / 16);
      HexIsNoPercent(c as int % 16);
      PercentsConcat(['%'], [HEX_DIGITS[c as int / 16]] + [HEX_DIGITS[c as int % 16]]);
      PercentsConcat([HEX_DIGITS[c as int / 16]], [HEX_DIGITS[c as int % 16]]);
      assert EncodeChar(c) == ['%'] + ([HEX_DIGITS[c as int / 16]] + [HEX_DIGITS[c as int % 16]]);
    }
  }

  lemma HexIsNoPercent(n: nat)
    requires n < 16
    ensures Percents([HEX_DIGITS[n]]) == 0
  {
    assert HEX_DIGITS[n] != '%';
  }

  /** The encoding has one '%', and two characters more, for each character that does not stay itself. */
  lemma {:induction false} EncodeCounts(v: string)
    requires Bytes(v)
    ensures Percents(Encode(v)) == Others(v) && |Encode(v)| == |v| + 2 * Others(v)
  {
    if v != "" {
      PercentsOfChar(v[0]);
      EncodeCounts(v[1..]);
      PercentsConcat(EncodeChar(v[0]), Encode(v[1..]));
    }
  }

  lemma {:induction false} NoOthers(v: string)
    requires Bytes(v)
    ensures Others(v) == 0 <==> forall k | 0 <= k < |v| :: StaysItself(v[k] as int)
    ensures Others(v) == 0 ==> Encode(v) == v
  {
    if v != "" {
      EncodedAs(v[0]);
      NoOthers(v[1..]);
      if Others(v[1..]) != 0 {
        var k: nat :| k < |v| - 1 && !StaysItself(v[1..][k] as int);
        assert v[k + 1] == v[1..][k];
      }
      assert forall k | 1 <= k < |v| :: v[k] == v[1..][k - 1];
    }
  }

  /** A value is its own encoding exactly if all its characters stay themselves. */
  lemma EncodeKeepsExactly(v: string)
    requires Bytes(v)
    ensures Encode(v) == v <==> forall k | 0 <= k < |v| :: StaysItself(v[k] as int)
  {
    NoOthers(v);
    EncodeCounts(v);
  }

  method PutEncoded(b: array<char>, at: nat, c: char) returns (end: nat)
    requires IsByte(c) && at + 3 <= b.Length
    modifies b
    ensures at < end <= at + 3 && b[..end] == old(b[..at]) + EncodeChar(c)
  {
    if Kept(c) {
      b[at] := c;
      end := at + 1;
    } else {
      b[at], b[at + 1], b[at + 2] := '%', ToHex(c as int / 16), ToHex(c as int % 16);
      end := at + 3;
    }
  }

  /** The buffer has room for every character becoming three. `memory` is whether malloc grants it. */
  method UrlEncode(src: string, memory: bool) returns (buf: array?<char>, ghost out: nat)
    requires Bytes(src) && NUL !in src
    ensures buf != null <==> memory
    ensures buf != null ==> fresh(buf) && buf.Length == 3 * |src| + 1
    ensures buf != null ==> out < buf.Length && buf[..out] == Encode(src) && buf[out] == NUL
  {
    buf, out := null, 0;
    if !memory { return; }
    var b := new char[3 * |src| + 1];
    var at := 0;
    var i := 0;
    while i < |src|
      invariant i <= |src| && at <= 3 * i
      invariant b[..at] == Encode(src[..i])
    {
      EncodeAppend(src[..i], src[i]);
      assert src[..i + 1] == src[..i] + [src[i]];
      at := PutEncoded(b, at, src[i]);
      i := i + 1;
    }
    assert src[..i] == src;
    b[at] := NUL;
    buf, out := b, at;
  }

  // ---- url_decode ----

  /** Right for the hex digits; other characters give numbers all the same. */
  function HexToInt(c: char): int {
    if IsDigit(c) then c as int - '0' as int else SbRequest.Lower(c) as int - 'a' as int + 10
  }

  function Or1(a: int, b: int): (r: int)
    ensures 0 <= r <= 1
  {
    if a % 2 == 1 || b % 2 == 1 then 1 else 0
  }

  /** a | b on four bits. */
  function Or4(a: int, b: int): (r: int)
    requires 0 <= a < 16 && 0 <= b < 16
    ensures 0 <= r < 16 && (b == 0 ==> r == a)
  {
    if b == 0 then a else 8 * Or1(a / 8, b / 8) + 4 * Or1(a / 4, b / 4) + 2 * Or1(a / 2, b / 2) + Or1(a, b)
  }

  /** (char) ((hex_to_int(a) << 4) | hex_to_int(b)) */
  function HexPair(a: char, b: char): (c: char)
    ensures IsByte(c)
  {
    var low := HexToInt(b) % 0x100;
    (16 * Or4(HexToInt(a) % 16, low / 16) + low % 16) as char
  }

  /** hex_to_int by codes: the value of a digit, and of a letter of either case its place in the alphabet and 9 more. */
  lemma HexToIntIs(c: char)
    ensures var code := c as int;
            HexToInt(c) == if 0x30 <= code <= 0x39 then code - 0x30
                           else if 0x41 <= code <= 0x5A then code - 0x37 else code - 0x57
    ensures HexCode(c as int) >= 0 ==> HexToInt(c) == HexCode(c as int)
  {
  }

  function Bit(n: int, weight: int): int
    requires weight > 0
  {
    n / weight % 2
  }

  /** The bits of any two characters' numbers, the first shifted by four, or-ed, of which a char keeps eight. */
  lemma HexPairBits(a: char, b: char, weight: int)
    requires weight == 1 || weight == 2 || weight == 4 || weight == 8
    ensures var r, hi, lo := HexPair(a, b) as int, HexToInt(a), HexToInt(b);
            && r % 16 == lo % 16
            && (Bit(r, 16 * weight) == 1 <==> Bit(hi, weight) == 1 || Bit(lo, 16 * weight) == 1)
  {
    var hi, lo := HexToInt(a), HexToInt(b);
    var r := 16 * Or4(hi % 16, lo % 0x100 / 16) + lo % 0x100 % 16;
    Nibbles(lo);
    Or4Bits(hi % 16, lo / 16 % 16, weight);
    LowBits(hi, weight);
    LowBits(lo / 16, weight);
    Shifted(lo, weight);
    Shifted(r, weight);
    assert r / 16 == Or4(hi % 16, lo / 16 % 16);
  }

  lemma Nibbles(n: int)
    ensures n % 0x100 / 16 == n / 16 % 16 && n % 0x100 % 16 == n % 16
  {
    var q, m := n / 0x100, n % 0x100;
    assert n / 16 == 16 * q + m / 16;
  }

  lemma LowBits(n: int, weight: int)
    requires weight == 1 || weight == 2 || weight == 4 || weight == 8
    ensures Bit(n % 16, weight) == Bit(n, weight)
  {
    var q, m := n / 16, n % 16;
    if weight == 1 {
    } else if weight == 2 {
      assert n / 2 == 2 * (4 * q) + m / 2;
    } else if weight == 4 {
      assert n / 4 == 2 * (2 * q) + m / 4;
    } else {
      assert n / 8 == 2 * q + m / 8;
    }
  }

  lemma Shifted(n: int, weight: int)
    requires weight == 1 || weight == 2 || weight == 4 || weight == 8
    ensures Bit(n / 16, weight) == Bit(n, 16 * weight)
  {
    if weight == 1 {
    } else if weight == 2 {
    } else if weight == 4 {
    } else {
    }
  }

  lemma Or4Bits(a: int, b: int, weight: int)
    requires 0 <= a < 16 && 0 <= b < 16 && (weight == 1 || weight == 2 || weight == 4 || weight == 8)
    ensures Bit(Or4(a, b), weight) == 1 <==> Bit(a, weight) == 1 || Bit(b, weight) == 1
  {
    if b != 0 {
      Or4Weights(Or1(a / 8, b / 8), Or1(a / 4, b / 4), Or1(a / 2, b / 2), Or1(a, b), Or4(a, b));
    }
  }

  lemma Or4Weights(b3: int, b2: int, b1: int, b0: int, n: int)
    requires 0 <= b3 <= 1 && 0 <= b2 <= 1 && 0 <= b1 <= 1 && 0 <= b0 <= 1 && n == 8 * b3 + 4 * b2 + 2 * b1 + b0
    ensures Bit(n, 8) == b3 && Bit(n, 4) == b2 && Bit(n, 2) == b1 && Bit(n, 1) == b0
  {
  }

  predicate StopsValue(c: char) {
    c == NUL || c in "?& \t\r\n"
  }

  predicate Escape(t: string, i: nat) {
    At(t, i) == '%' && At(t, i + 1) != NUL && At(t, i + 2) != NUL
  }

  /** The character decoded at i, and how many are consumed for it. */
  function DecodeAt(t: string, i: nat): char {
    if Escape(t, i) then HexPair(At(t, i + 1), At(t, i + 2)) else if At(t, i) == '+' then ' ' else At(t, i)
  }

  function Width(t: string, i: nat): nat {
    if Escape(t, i) then 3 else 1
  }

  /** The whole decoded value that starts at i. */
  function Decode(t: string, i: nat): string
    decreases |t| - i
  {
    if StopsValue(At(t, i)) then "" else [DecodeAt(t, i)] + Decode(t, i + Width(t, i))
  }

  /**
    What a caller finds in a buffer of len characters, and is told. A value that just fits is reported as
    truncated.
   */
  ghost predicate Decoded(dst: seq<char>, len: nat, v: string, res: int)
    requires 0 < len <= |dst|
  {
    && res == (if |v| + 1 < len then SB_ESUCCESS else SB_ETRUNCATED)
    && (if |v| < len then dst[..|v|] == v && dst[|v|] == NUL else dst[..len - 1] == v[..len - 1] && dst[len - 1] == NUL)
  }

  method UrlDecode(dst: array<char>, t: string, start: nat, len: nat) returns (res: int)
    requires 0 < len <= dst.Length
    modifies dst
    ensures Decoded(dst[..], len, Decode(t, start), res)
    ensures dst[len..] == old(dst[len..])
  {
    ghost var v := Decode(t, start);
    var left := len - 1;
    var src: nat := start;
    var to: nat := 0;
    while !StopsValue(At(t, src)) && left > 0
      invariant to + left == len - 1
      invariant dst[..to] + Decode(t, src) == v
      invariant dst[len..] == old(dst[len..])
      decreases left
    {
      ghost var rest := Decode(t, src + Width(t, src));
      assert Decode(t, src) == [DecodeAt(t, src)] + rest;
      if At(t, src) == '%' && At(t, src + 1) != NUL && At(t, src + 2) != NUL {
        dst[to] := HexPair(At(t, src + 1), At(t, src + 2));
        src := src + 2;
      } else if At(t, src) == '+' {
        dst[to] := ' ';
      } else {
        dst[to] := At(t, src);
      }
      assert v == dst[..to + 1] + rest;
      to, src, left := to + 1, src + 1, left - 1;
    }
    assert v[..to] == dst[..to];
    dst[to] := NUL;
    res := if left == 0 then SB_ETRUNCATED else SB_ESUCCESS;
  }

  /** A value of exactly len - 1 characters arrives whole, and is reported as truncated. */
  lemma JustFits(dst: seq<char>, len: nat, v: string, res: int)
    requires 0 < len <= |dst| && Decoded(dst, len, v, res)
    ensures res == SB_ESUCCESS <==> |v| + 2 <= len
    ensures dst[..Min(|v|, len - 1)] == v <==> |v| + 1 <= len
  {
    if dst[..Min(|v|, len - 1)] == v { assert |v| == Min(|v|, len - 1); }
  }

  /** Three characters in a buffer of four. */
  method JustFitsExample() returns (dst: array<char>, res: int)
    ensures fresh(dst) && Decode("abc", 0) == "abc" && dst[..] == ['a', 'b', 'c', NUL] && res == SB_ETRUNCATED
  {
    assert Decode("abc", 3) == "" && Decode("abc", 2) == "c" && Decode("abc", 1) == "bc" && Decode("abc", 0) == "abc";
    dst := new char[4];
    res := UrlDecode(dst, "abc", 0, 4);
    assert dst[..] == dst[..3] + [dst[3]];
  }

  // ---- find_var_value, sb_get_var_ex ----

  predicate NameAt(t: string, i: nat, name: string) {
    At(t, i + |name|) == '=' && forall k | 0 <= k < |name| :: At(t, i + k) == name[k]
  }

  predicate EndsPair(c: char) {
    c == NUL || c in "& \t\r\n"
  }

  /** strcspn: the first place from i on that holds a NUL or one of the stops. */
  function Span(t: string, i: nat, stops: string): (r: nat)
    ensures i <= r && (At(t, r) == NUL || At(t, r) in stops)
    ensures forall k | i <= k < r :: At(t, k) != NUL && At(t, k) !in stops
    ensures i <= |t| ==> r <= |t|
    decreases |t| - i
  {
    if At(t, i) == NUL || At(t, i) in stops then i else Span(t, i + 1, stops)
  }

  /** A pair of the query that begins at start begins at p. */
  ghost predicate PairStart(t: string, start: nat, p: nat) {
    && start <= p && (p == start || At(t, p - 1) == '&')
    && forall i | start <= i < p :: At(t, i) == '&' || !EndsPair(At(t, i))
  }

  /** r is the value of the first pair with the name, or NULL if no pair has it. */
  ghost predicate FirstValue(t: string, start: nat, name: string, r: int) {
    if r == NULL then forall p: nat | PairStart(t, start, p) :: !NameAt(t, p, name)
    else
      var p := r - |name| - 1;
      && p >= 0 && PairStart(t, start, p) && NameAt(t, p, name)
      && forall q: nat | PairStart(t, start, q) && q < p :: !NameAt(t, q, name)
  }

  method FindVarValue(t: string, start: nat, name: string) returns (r: int)
    requires start <= |t|
    ensures r == NULL || r >= 0
    ensures FirstValue(t, start, name, r)
  {
    var str: nat := start;
    while true
      invariant str <= |t| && PairStart(t, start, str)
      invariant forall q: nat | PairStart(t, start, q) && q < str :: !NameAt(t, q, name)
      decreases |t| - str
    {
      if NameAt(t, str, name) {
        return str + |name| + 1;
      }
      ghost var was := str;
      str := Span(t, str, "& \t\r\n");
      NoStartBetween(t, start, was, str);
      if At(t, str) != '&' {
        return NULL;
      }
      str := str + 1;
    }
    r := NULL;
  }

  lemma NoStartBetween(t: string, start: nat, was: nat, end: nat)
    requires PairStart(t, start, was) && was <= end && EndsPair(At(t, end))
    requires forall k | was <= k < end :: !EndsPair(At(t, k))
    ensures forall q: nat | PairStart(t, start, q) :: q <= was || q == end + 1 || q > end + 1
    ensures At(t, end) != '&' ==> forall q: nat | PairStart(t, start, q) :: q <= was
    ensures At(t, end) == '&' ==> PairStart(t, start, end + 1)
  {
    forall q: nat | PairStart(t, start, q) && q > was
      ensures q > end && At(t, end) == '&'
    {
      if q <= end { assert EndsPair(At(t, q - 1)); }
    }
  }

  ghost predicate NameIn(t: string, start: nat, name: string) {
    exists p: nat :: PairStart(t, start, p) && NameAt(t, p, name)
  }

  /** r is the value to decode: the name's in the query string, or else in the body, if there is one, or else NULL. */
  ghost predicate Chosen(t: string, dataIdx: nat, name: string, fromDataOnly: bool, r: int) {
    var q := Span(t, 0, "?\r");
    if !fromDataOnly && At(t, q) == '?' && NameIn(t, q + 1, name) then r != NULL && FirstValue(t, q + 1, name, r)
    else if dataIdx > 0 then FirstValue(t, dataIdx, name, r)
    else r == NULL
  }

  method FindVar(t: string, dataIdx: nat, name: string, fromDataOnly: bool) returns (r: int)
    requires dataIdx <= |t|
    ensures r == NULL || r >= 0
    ensures Chosen(t, dataIdx, name, fromDataOnly, r)
  {
    r := NULL;
    var q := Span(t, 0, "?\r");
    if !fromDataOnly && At(t, q) == '?' {
      r := FindVarValue(t, q + 1, name);
    }
    if r == NULL && dataIdx > 0 {
      r := FindVarValue(t, dataIdx, name);
    }
  }

  /** sb_get_var_ex, on the received bytes t */
  method GetVarEx(t: string, dataIdx: nat, name: string, dst: array<char>, len: nat, fromDataOnly: bool)
    returns (res: int, ghost value: int)
    requires dataIdx <= |t| && 0 < len <= dst.Length
    modifies dst
    ensures Chosen(t, dataIdx, name, fromDataOnly, value)
    ensures value == NULL ==> res == SB_ENOTFOUND && dst[0] == NUL
    ensures value != NULL ==> value >= 0 && Decoded(dst[..], len, Decode(t, value), res)
  {
    var s := FindVar(t, dataIdx, name, fromDataOnly);
    value := s;
    if s == NULL {
      dst[0] := NUL;
      return SB_ENOTFOUND, value;
    }
    res := UrlDecode(dst, t, s, len);
  }

  // ---- the round trip ----

  /** How a client may write one character of a value: as it is, as '+' for a space, or by its two hex digits. */
  datatype Sym = Literal(c: char) | Plus | Hex(high: char, low: char)

  /** The codes at which a value ends: NUL, '?', '&', and four kinds of blanks. */
  predicate EndsValue(code: int) {
    code == 0 || code == 0x3F || code == 0x26 || code == 0x20 || code == 0x09 || code == 0x0D || code == 0x0A
  }

  predicate IsSym(x: Sym) {
    match x
    case Literal(c) => !EndsValue(c as int) && c as int != 0x25 && c as int != 0x2B
    case Plus => true
    case Hex(high, low) => HexCode(high as int) >= 0 && HexCode(low as int) >= 0
  }

  predicate AreSyms(v: seq<Sym>) {
    forall k | 0 <= k < |v| :: IsSym(v[k])
  }

  function PrintSym(x: Sym): (s: string)
    ensures 1 <= |s| <= 3
  {
    match x
    case Literal(c) => [c]
    case Plus => "+"
    case Hex(high, low) => ['%', high, low]
  }

  function PrintSyms(v: seq<Sym>): string {
    if v == [] then "" else PrintSym(v[0]) + PrintSyms(v[1..])
  }

  function SymChar(x: Sym): char
    requires IsSym(x)
  {
    match x
    case Literal(c) => c
    case Plus => ' '
    case Hex(high, low) => (16 * HexCode(high as int) + HexCode(low as int)) as char
  }

  /** The value meant. */
  function Meant(v: seq<Sym>): (s: string)
    requires AreSyms(v)
    ensures |s| == |v| && forall k | 0 <= k < |v| :: s[k] == SymChar(v[k])
  {
    seq(|v|, k requires 0 <= k < |v| => SymChar(v[k]))
  }

  datatype Pair = Pair(name: string, value: seq<Sym>)

  /** A name that needs no encoding to stand in a query. */
  predicate Plain(name: string) {
    forall k | 0 <= k < |name| :: !EndsPair(name[k]) && name[k] != '='
  }

  ghost predicate Fit(pairs: seq<Pair>) {
    forall i | 0 <= i < |pairs| :: Plain(pairs[i].name) && AreSyms(pairs[i].value)
  }

  /** name=value&name=value... with the values as the client writes them. */
  function Render(pairs: seq<Pair>): string
    requires Fit(pairs)
  {
    if pairs == [] then ""
    else pairs[0].name + "=" + PrintSyms(pairs[0].value) + if |pairs| == 1 then "" else "&" + Render(pairs[1..])
  }

  function PlusToSpace(v: string): (s: string)
    ensures |s| == |v| && forall i | 0 <= i < |v| :: s[i] == if v[i] == '+' then ' ' else v[i]
  {
    if v == "" then "" else [if v[0] == '+' then ' ' else v[0]] + PlusToSpace(v[1..])
  }

  /** The value of the first pair with the name. */
  function ValueOf(pairs: seq<Pair>, name: string): Option<seq<Sym>> {
    if pairs == [] then None else if pairs[0].name == name then Some(pairs[0].value) else ValueOf(pairs[1..], name)
  }

  ghost predicate Reads(t: string, i: nat, s: string) {
    forall k {:trigger CharOf(s, k)} | 0 <= k < |s| :: At(t, i + k) == CharOf(s, k)
  }

  lemma ReadsAt(t: string, i: nat, s: string, k: nat)
    requires Reads(t, i, s) && k < |s|
    ensures At(t, i + k) == s[k]
  {
    assert CharOf(s, k) == s[k];
  }

  /** From i on t asks with the pairs, and the query then ends. */
  ghost predicate Asks(t: string, i: nat, pairs: seq<Pair>)
    requires Fit(pairs)
  {
    Reads(t, i, Render(pairs)) && EndsPair(At(t, i + |Render(pairs)|)) && At(t, i + |Render(pairs)|) != '&'
  }

  lemma ReadsSplit(t: string, i: nat, j: nat, a: string, b: string)
    requires Reads(t, i, a + b) && j == i + |a|
    ensures Reads(t, i, a) && Reads(t, j, b)
  {
    forall k | 0 <= k < |a| ensures At(t, i + k) == CharOf(a, k) { ReadsAt(t, i, a + b, k); }
    forall k | 0 <= k < |b| ensures At(t, j + k) == CharOf(b, k) { ReadsAt(t, i, a + b, |a| + k); }
  }

  lemma HexDigitsPair(a: char, b: char)
    requires HexCode(a as int) >= 0 && HexCode(b as int) >= 0
    ensures HexPair(a, b) as int == 16 * HexCode(a as int) + HexCode(b as int)
  {
    HexToIntIs(a);
    HexToIntIs(b);
    assert HexToInt(b) % 0x100 == HexToInt(b);
  }

  lemma StopsExactly(c: char)
    ensures StopsValue(c) <==> EndsValue(c as int)
  {
  }

  lemma SymReads(t: string, i: nat, x: Sym)
    requires IsSym(x) && Reads(t, i, PrintSym(x))
    ensures !StopsValue(At(t, i)) && Width(t, i) == |PrintSym(x)| && DecodeAt(t, i) == SymChar(x)
  {
    var s := PrintSym(x);
    ReadsAt(t, i, s, 0);
    StopsExactly(At(t, i));
    if x.Hex? {
      ReadsAt(t, i, s, 1);
      ReadsAt(t, i, s, 2);
      HexDigitsPair(x.high, x.low);
    }
  }

  /** Whatever way a value is written, with hex digits of either case, it is decoded to what is meant. */
  lemma {:induction false} DecodeReads(t: string, i: nat, end: nat, v: seq<Sym>)
    requires AreSyms(v) && Reads(t, i, PrintSyms(v)) && end == i + |PrintSyms(v)| && EndsValue(At(t, end) as int)
    ensures Decode(t, i) == Meant(v)
    decreases |v|
  {
    if v == [] {
      StopsExactly(At(t, end));
    } else {
      var j := i + |PrintSym(v[0])|;
      ReadsSplit(t, i, j, PrintSym(v[0]), PrintSyms(v[1..]));
      SymReads(t, i, v[0]);
      DecodeReads(t, j, end, v[1..]);
      DecodeOne(t, i, j);
      assert [SymChar(v[0])] + Meant(v[1..]) == Meant(v);
    }
  }

  /** The way url_encode writes a character. */
  function SymOf(c: char): (x: Sym)
    requires IsByte(c)
  {
    if c as int == 0x2B then Plus
    else if StaysItself(c as int) then Literal(c)
    else Hex(HEX_DIGITS[c as int / 16], HEX_DIGITS[c as int % 16])
  }

  function SymsOf(v: string): (x: seq<Sym>)
    requires Bytes(v)
    ensures |x| == |v| && forall k | 0 <= k < |v| :: IsByte(v[k]) && x[k] == SymOf(v[k])
  {
    assert forall k | 0 <= k < |v| :: v[k] in v;
    seq(|v|, k requires 0 <= k < |v| => SymOf(v[k]))
  }

  lemma HexDigitIs(n: nat)
    requires n < 16
    ensures HexCode(HEX_DIGITS[n] as int) == n
  {
  }

  lemma SymOfIs(c: char)
    requires IsByte(c)
    ensures IsSym(SymOf(c)) && PrintSym(SymOf(c)) == EncodeChar(c)
    ensures SymChar(SymOf(c)) == if c == '+' then ' ' else c
  {
    EncodedAs(c);
    HexDigitIs(c as int / 16);
    HexDigitIs(c as int % 16);
  }

  lemma {:induction false} EncodePrints(v: string)
    requires Bytes(v)
    ensures AreSyms(SymsOf(v)) && PrintSyms(SymsOf(v)) == Encode(v) && Meant(SymsOf(v)) == PlusToSpace(v)
    decreases |v|
  {
    if v != "" {
      EncodePrints(v[1..]);
      SymOfIs(v[0]);
      assert SymsOf(v)[1..] == SymsOf(v[1..]);
    }
    forall k | 0 <= k < |v| ensures IsSym(SymsOf(v)[k]) && SymChar(SymsOf(v)[k]) == PlusToSpace(v)[k] {
      SymOfIs(v[k]);
    }
  }

  /** Decoding inverts encoding, but for '+'. */
  lemma DecodeInverts(t: string, i: nat, end: nat, v: string)
    requires Bytes(v) && Reads(t, i, Encode(v)) && end == i + |Encode(v)| && EndsValue(At(t, end) as int)
    ensures Decode(t, i) == PlusToSpace(v)
  {
    EncodePrints(v);
    DecodeReads(t, i, end, SymsOf(v));
  }

  lemma DecodeOne(t: string, i: nat, j: nat)
    requires !StopsValue(At(t, i)) && j == i + Width(t, i)
    ensures Decode(t, i) == [DecodeAt(t, i)] + Decode(t, j)
  {
  }

  lemma {:induction false} PrintedIsPlain(v: seq<Sym>)
    requires AreSyms(v)
    ensures forall k | 0 <= k < |PrintSyms(v)| :: !EndsPair(PrintSyms(v)[k])
    decreases |v|
  {
    if v != [] {
      SymIsPlain(v[0]);
      PrintedIsPlain(v[1..]);
    }
  }

  lemma SymIsPlain(x: Sym)
    requires IsSym(x)
    ensures forall k | 0 <= k < |PrintSym(x)| :: !EndsPair(PrintSym(x)[k])
  {
  }

  lemma NameGoesOn(t: string, i: nat, a: string, b: string)
    requires Plain(b) && forall k | 0 <= k < |b| :: At(t, i + k) == b[k]
    ensures |a| < |b| ==> At(t, i + |a|) != '='
  {
    if |a| < |b| { assert At(t, i + |a|) == b[|a|]; }
  }

  /** Two plain names before '=' at the same place are the same. */
  lemma OneName(t: string, i: nat, a: string, b: string)
    requires Plain(a) && Plain(b) && NameAt(t, i, a) && NameAt(t, i, b)
    ensures a == b
  {
    NameGoesOn(t, i, a, b);
    NameGoesOn(t, i, b, a);
  }

  /** Where the value of a pair at index at begins, and where it ends. */
  function ValueStart(at: nat, p: Pair): nat {
    at + |p.name| + 1
  }

  function PairEnd(at: nat, p: Pair): nat
  {
    ValueStart(at, p) + |PrintSyms(p.value)|
  }

  lemma PairReads(t: string, at: nat, p: Pair, rest: string)
    requires Plain(p.name) && AreSyms(p.value) && Reads(t, at, p.name + "=" + PrintSyms(p.value) + rest)
    ensures NameAt(t, at, p.name) && Reads(t, ValueStart(at, p), PrintSyms(p.value)) && Reads(t, PairEnd(at, p), rest)
    ensures forall k | at <= k < PairEnd(at, p) :: !EndsPair(At(t, k))
  {
    var v, eq, start, end := PrintSyms(p.value), at + |p.name|, ValueStart(at, p), PairEnd(at, p);
    assert p.name + "=" + v + rest == p.name + ("=" + (v + rest));
    ReadsSplit(t, at, eq, p.name, "=" + (v + rest));
    ReadsSplit(t, eq, start, "=", v + rest);
    ReadsSplit(t, start, end, v, rest);
    ReadsAt(t, eq, "=", 0);
    PrintedIsPlain(p.value);
    forall k | 0 <= k < |p.name| ensures At(t, at + k) == p.name[k] { ReadsAt(t, at, p.name, k); }
    forall k | at <= k < end ensures !EndsPair(At(t, k)) {
      if k < eq {
        ReadsAt(t, at, p.name, k - at);
      } else if k > eq {
        ReadsAt(t, start, v, k - start);
      }
    }
  }

  lemma NextPair(t: string, at: nat, pairs: seq<Pair>)
    requires pairs != [] && Fit(pairs) && Asks(t, at, pairs)
    ensures var p, end := pairs[0], PairEnd(at, pairs[0]);
            && NameAt(t, at, p.name) && Reads(t, ValueStart(at, p), PrintSyms(p.value))
            && (forall k | at <= k < end :: !EndsPair(At(t, k))) && EndsPair(At(t, end))
            && (if |pairs| == 1 then At(t, end) != '&'
                else At(t, end) == '&' && Fit(pairs[1..]) && Asks(t, end + 1, pairs[1..]))
  {
    var end := PairEnd(at, pairs[0]);
    var rest := if |pairs| == 1 then "" else "&" + Render(pairs[1..]);
    PairReads(t, at, pairs[0], rest);
    if |pairs| > 1 {
      ReadsSplit(t, end, end + 1, "&", Render(pairs[1..]));
      ReadsAt(t, end, "&", 0);
    }
  }

  /** A pair with another name is passed over. */
  lemma OtherName(t: string, start: nat, at: nat, end: nat, pair: string, name: string)
    requires PairStart(t, start, at) && NameAt(t, at, pair) && Plain(pair) && Plain(name) && pair != name
    requires at <= end && (forall k | at <= k < end :: !EndsPair(At(t, k))) && EndsPair(At(t, end))
    requires forall q: nat | PairStart(t, start, q) && q < at :: !NameAt(t, q, name)
    ensures At(t, end) == '&' ==> PairStart(t, start, end + 1)
    ensures forall q: nat | PairStart(t, start, q) && (q <= end || At(t, end) != '&') :: !NameAt(t, q, name)
  {
    if NameAt(t, at, name) { OneName(t, at, name, pair); }
    NoStartBetween(t, start, at, end);
  }

  /** Looking a name up from a place where the pairs begin finds the value of the first pair with it. */
  lemma {:induction false} LookUp(t: string, start: nat, at: nat, pairs: seq<Pair>, name: string) returns (r: int)
    requires Fit(pairs) && Asks(t, at, pairs) && Plain(name) && PairStart(t, start, at)
    requires forall q: nat | PairStart(t, start, q) && q < at :: !NameAt(t, q, name)
    ensures FirstValue(t, start, name, r)
    ensures match ValueOf(pairs, name)
            case None => r == NULL
            case Some(v) => r >= 0 && AreSyms(v) && Decode(t, r) == Meant(v)
    decreases |pairs|
  {
    if pairs == [] {
      r := NULL;
      NoStartBetween(t, start, at, at);
      NameAtEnd(t, at, name);
      return;
    }
    var p := pairs[0];
    NextPair(t, at, pairs);
    if p.name == name {
      r := ValueStart(at, p);
      EndsPairEndsValue(At(t, PairEnd(at, p)));
      DecodeReads(t, r, PairEnd(at, p), p.value);
      return;
    }
    OtherName(t, start, at, PairEnd(at, p), p.name, name);
    assert ValueOf(pairs, name) == ValueOf(pairs[1..], name);
    if |pairs| == 1 {
      assert ValueOf(pairs[1..], name) == None;
      r := NULL;
    } else {
      r := LookUp(t, start, PairEnd(at, p) + 1, pairs[1..], name);
    }
  }

  lemma EndsPairEndsValue(c: char)
    requires EndsPair(c)
    ensures EndsValue(c as int)
  {
  }

  lemma NameAtEnd(t: string, at: nat, name: string)
    requires Plain(name) && EndsPair(At(t, at))
    ensures !NameAt(t, at, name)
  {
    assert |name| > 0 ==> !EndsPair(name[0]);
  }

  lemma OneFirstValue(t: string, start: nat, name: string, r1: int, r2: int)
    requires FirstValue(t, start, name, r1) && FirstValue(t, start, name, r2)
    ensures r1 == r2
    ensures r1 != NULL <==> NameIn(t, start, name)
  {
    var n := |name| + 1;
    if r1 != NULL { assert PairStart(t, start, r1 - n) && NameAt(t, r1 - n, name); }
    if r2 != NULL { assert PairStart(t, start, r2 - n) && NameAt(t, r2 - n, name); }
  }

  /** The part of a request that asks: after '?' in the first line, or the body. */
  ghost predicate Part(t: string, present: bool, at: nat, pairs: seq<Pair>) {
    Fit(pairs) && if present then Asks(t, at, pairs) else pairs == []
  }

  lemma PartLookUp(t: string, at: nat, pairs: seq<Pair>, name: string, r: int)
    requires Part(t, true, at, pairs) && Plain(name) && FirstValue(t, at, name, r)
    ensures match ValueOf(pairs, name)
            case None => r == NULL && !NameIn(t, at, name)
            case Some(v) => r >= 0 && NameIn(t, at, name) && AreSyms(v) && Decode(t, r) == Meant(v)
  {
    var found := LookUp(t, at, at, pairs, name);
    OneFirstValue(t, at, name, r, found);
  }

  /**
    sb_get_var gives back what the value of the first pair with the name means, whatever way it is written: from the
    query string if it is there, otherwise from the body. It finds nothing exactly if neither has the name.
   */
  lemma QueryRoundTrip(t: string, query: seq<Pair>, dataIdx: nat, body: seq<Pair>, name: string, r: int)
    requires Plain(name) && Chosen(t, dataIdx, name, false, r)
    requires Part(t, At(t, Span(t, 0, "?\r")) == '?', Span(t, 0, "?\r") + 1, query)
    requires Part(t, dataIdx > 0, dataIdx, body)
    ensures match if ValueOf(query, name).Some? then ValueOf(query, name) else ValueOf(body, name)
            case None => r == NULL
            case Some(v) => r >= 0 && AreSyms(v) && Decode(t, r) == Meant(v)
  {
    var at := Span(t, 0, "?\r") + 1;
    if At(t, at - 1) == '?' {
      var found := LookUp(t, at, at, query, name);
      PartLookUp(t, at, query, name, found);
    }
    if At(t, at - 1) == '?' && NameIn(t, at, name) {
      PartLookUp(t, at, query, name, r);
    } else if dataIdx > 0 {
      PartLookUp(t, dataIdx, body, name, r);
    }
  }
}
