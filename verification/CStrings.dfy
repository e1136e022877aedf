/**
  C strings seen as values, and the two result types shared by the project.

  A text `t: string` stands for the characters before the terminating NUL of a C string;
  `At(t, i)` is what the C code reads at index `i`, so reading at or past the end gives NUL.
  Pointers into a buffer are indices, and the null pointer is `NULL`.
 */
module CStrings {

  const NUL: char := '\0'
  const NULL: int := -1

  datatype Option<+T> = None | Some(value: T)

  /** The outcome of a recursive-descent step: nothing, or a value and the index just after it. */
  datatype Parse<+T> = NoParse | Parsed(value: T, next: nat) {
    predicate IsFailure() {
      NoParse?
    }
    function PropagateFailure<U>(): Parse<U>
      requires NoParse?
    {
      NoParse
    }
    function Extract(): (T, nat)
      requires Parsed?
    {
      (value, next)
    }
  }

  function At(t: string, i: int): char {
    if 0 <= i < |t| then t[i] else NUL
  }

  /** word[k], under a name that keeps a match with a word from being spelled out where it is only passed on. */
  function CharOf(word: string, k: nat): char
    requires k < |word|
  {
    word[k]
  }

  predicate IsDigit(c: char) {
    '0' <= c <= '9'
  }

  predicate IsHexDigit(c: char) {
    IsDigit(c) || 'a' <= c <= 'f' || 'A' <= c <= 'F'
  }

  /** The C string at index `pos` of buffer `b` is `s`, terminator included, and lies below `lim`. */
  ghost predicate StrAt(b: string, lim: int, pos: int, s: string) {
    && 0 <= pos
    && pos + |s| < lim <= |b|
    && b[pos..pos + |s|] == s
    && b[pos + |s|] == NUL
    && NUL !in s
  }

  /** From index `p` on, buffer `b` still holds the text `t` and its terminator. */
  ghost predicate Unread(b: string, t: string, p: int) {
    && 0 <= p <= |t| < |b|
    && b[|t|] == NUL
    && forall i | p <= i < |t| :: b[i] == t[i]
  }

  lemma StrAtStable(b: string, b': string, lim: int, lim': int, pos: int, s: string)
    requires StrAt(b, lim, pos, s)
    requires lim <= lim' <= |b'|
    requires forall i | 0 <= i < lim :: b'[i] == b[i]
    ensures StrAt(b', lim', pos, s)
  {
    assert b'[pos..pos + |s|] == b[pos..pos + |s|];
  }
}
