/**
  Characters by their ASCII codes: what digits, letters and escapes are, without reference to how the code tests them.
 */
module Ascii {
  import opened CStrings

  /** The value of a hexadecimal digit in either case; -1 for any other code. */
  function HexCode(code: int): (v: int)
    ensures -1 <= v < 16
  {
    if 0x30 <= code <= 0x39 then code - 0x30
    else if 0x41 <= code <= 0x46 then code - 0x37
    else if 0x61 <= code <= 0x66 then code - 0x57
    else -1
  }

  /** The code that section 7 of RFC 8259 gives the escape with this letter; -1 where there is none. */
  function EscapeCode(letter: int): (code: int)
    ensures -1 <= code < 0x80
  {
    match letter
    case 0x22 => 0x22
    case 0x5C => 0x5C
    case 0x2F => 0x2F
    case 0x62 => 0x08
    case 0x66 => 0x0C
    case 0x6E => 0x0A
    case 0x72 => 0x0D
    case 0x74 => 0x09
    case _ => -1
  }

  predicate IsLetterOrDigit(code: int) {
    0x30 <= code <= 0x39 || 0x41 <= code <= 0x5A || 0x61 <= code <= 0x7A
  }

  /** The same code, or the codes of one letter in its two cases. */
  predicate SameButCase(a: int, b: int) {
    a == b || (0x41 <= a <= 0x5A && b == a + 32) || (0x41 <= b <= 0x5A && a == b + 32)
  }

  /** isdigit and isxdigit in the C locale. */
  lemma DigitCodes(c: char)
    ensures IsDigit(c) <==> 0x30 <= c as int <= 0x39
    ensures IsHexDigit(c) <==> HexCode(c as int) >= 0
  {
  }
}
