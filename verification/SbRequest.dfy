/**
  Request framing in sandbird.c: where a request ends in the byte stream, whatever pieces `recv` delivers.

  `Frame` says it for the whole stream at once; `Receiver.Recv` is sb_stream_recv up to the point where the
  complete request is handed on. `toUint` stands for str_to_uint, the C library's reading of a number.
 */
module SbRequest {
  import opened CStrings
  import opened SbBuffer
  import opened Ascii

  datatype State =
    | RECEIVING_HEADER | RECEIVING_REQUEST | SENDING_STATUS | SENDING_HEADER | SENDING_DATA | SENDING_FILE | CLOSING

  /** mem_equal(t + i, "\r\n", 2) */
  predicate CrLfAt(t: string, i: nat) {
    At(t, i) == '\r' && At(t, i + 1) == '\n'
  }

  /** The first h bytes of t end in CRLF CRLF. */
  predicate EndsHeader(t: string, h: nat) {
    4 <= h <= |t| && CrLfAt(t, h - 4) && CrLfAt(t, h - 2)
  }

  /** The end of the header block: the first place from i on where one ends. */
  function HeaderEnd(t: string, i: nat): (r: Option<nat>)
    ensures r.Some? ==>
              i <= r.value <= |t| && EndsHeader(t, r.value) && forall k | i <= k < r.value :: !EndsHeader(t, k)
    ensures r.None? ==> forall k | i <= k :: !EndsHeader(t, k)
    decreases |t| - i
  {
    if i > |t| then None else if EndsHeader(t, i) then Some(i) else HeaderEnd(t, i + 1)
  }

  // ---- find_header_value ----

  function Lower(c: char): char {
    if 'A' <= c <= 'Z' then (c as int + 32) as char else c
  }

  /** mem_case_equal(t + i, field, strlen(field)) */
  predicate CaseEqualAt(t: string, i: nat, field: string) {
    forall k | 0 <= k < |field| :: Lower(At(t, i + k)) == Lower(field[k])
  }

  /** str += strcspn(str, "\r") */
  function SkipToCr(t: string, i: nat): (r: nat)
    ensures i <= r && (At(t, r) == NUL || At(t, r) == '\r')
    ensures forall k | i <= k < r :: At(t, k) != NUL && At(t, k) != '\r'
    decreases |t| - i
  {
    if At(t, i) == NUL || At(t, i) == '\r' then i else SkipToCr(t, i + 1)
  }

  /** str += strspn(str, " \t") */
  function SkipSpaces(t: string, i: nat): (r: nat)
    ensures i <= r && (i <= |t| ==> r <= |t|)
    ensures At(t, r) != ' ' && At(t, r) != '\t' && forall k | i <= k < r :: At(t, k) == ' ' || At(t, k) == '\t'
    decreases |t| - i
  {
    if At(t, i) == ' ' || At(t, i) == '\t' then SkipSpaces(t, i + 1) else i
  }

  /** Absent tells where the scan stopped; Loops that the C loop never ends. */
  datatype Search = Found(value: nat) | Absent(at: nat) | Loops

  predicate FieldAt(t: string, i: nat, field: string) {
    CaseEqualAt(t, i, field) && At(t, i + |field|) == ':'
  }

  function FindHeader(t: string, i: nat, field: string): (r: Search)
    ensures r.Found? ==> r.value <= |t|
    decreases |t| - i
  {
    if At(t, i) == NUL || CrLfAt(t, i) then Absent(i)
    else if FieldAt(t, i, field) then Found(SkipSpaces(t, i + |field| + 1))
    else
      var j := SkipToCr(t, i);
      if CrLfAt(t, j) then FindHeader(t, j + 2, field)
      else if j > i then FindHeader(t, j, field)
      else Loops
  }

  /** A CR that no LF follows. */
  predicate BareCr(t: string, c: nat) {
    At(t, c) == '\r' && At(t, c + 1) != '\n'
  }

  /** A line of the text from index i on begins at p: at i itself, or behind a CRLF. */
  predicate LineStart(t: string, i: nat, p: nat) {
    p == i || (i + 2 <= p && CrLfAt(t, p - 2))
  }

  /**
    The first bare CR from i on is at c, inside the string, and neither a line that begins before it nor the CR
    itself is what the search looks for: a blank line or the field.
   */
  ghost predicate StuckAt(t: string, i: nat, field: string, c: nat) {
    && i <= c && BareCr(t, c)
    && (forall k | i <= k < c :: At(t, k) != NUL && !BareCr(t, k))
    && (forall p | i <= p <= c && (LineStart(t, i, p) || p == c) :: !CrLfAt(t, p) && !FieldAt(t, p, field))
  }

  /** A CRLF at j is passed over: what follows it is stuck exactly where the whole is. */
  lemma StuckBehind(t: string, i: nat, j: nat, field: string, c: nat)
    requires j == SkipToCr(t, i) && CrLfAt(t, j) && StuckAt(t, i, field, c)
    ensures StuckAt(t, j + 2, field, c)
  {
    assert At(t, j + 1) == '\n';
    forall p | j + 2 <= p <= c && (LineStart(t, j + 2, p) || p == c) ensures !CrLfAt(t, p) && !FieldAt(t, p, field) {
      assert LineStart(t, i, p) || p == c;
    }
  }

  lemma StuckAhead(t: string, i: nat, j: nat, field: string, c: nat)
    requires j == SkipToCr(t, i) && CrLfAt(t, j) && StuckAt(t, j + 2, field, c)
    requires !CrLfAt(t, i) && !FieldAt(t, i, field)
    ensures StuckAt(t, i, field, c)
  {
    assert At(t, j + 1) == '\n';
    forall k | i <= k < c ensures At(t, k) != NUL && !BareCr(t, k) {
      assert k < j || k == j || k == j + 1 || j + 2 <= k;
    }
    forall p | i <= p <= c && (LineStart(t, i, p) || p == c) ensures !CrLfAt(t, p) && !FieldAt(t, p, field) {
      if p != i && p != c {
        LineStartBehind(t, i, j, p);
      }
    }
  }

  lemma StuckSame(t: string, i: nat, j: nat, next: nat, field: string)
    requires j == SkipToCr(t, i) && CrLfAt(t, j) && next == j + 2 && !CrLfAt(t, i) && !FieldAt(t, i, field)
    ensures (exists c: nat :: StuckAt(t, i, field, c)) <==> exists c: nat :: StuckAt(t, next, field, c)
  {
    if c: nat :| StuckAt(t, i, field, c) {
      StuckBehind(t, i, j, field, c);
    }
    if c: nat :| StuckAt(t, next, field, c) {
      StuckAhead(t, i, j, field, c);
    }
  }

  lemma LineStartBehind(t: string, i: nat, j: nat, p: nat)
    requires j == SkipToCr(t, i) && CrLfAt(t, j) && p != i && LineStart(t, i, p)
    ensures j + 2 <= p && LineStart(t, j + 2, p)
  {
    var q := p - 2;
    assert q == j + 1 ==> At(t, q) == '\n';
  }

  /**
    The search never ends exactly if there is a bare CR, and before the first one no NUL, no blank line and no line
    with the field: it then stays at that CR for ever.
   */
  lemma {:induction false} LoopsExactly(t: string, i: nat, field: string)
    ensures FindHeader(t, i, field) == Loops <==> exists c: nat :: StuckAt(t, i, field, c)
    decreases |t| - i
  {
    var j := SkipToCr(t, i);
    var next := j + 2;
    if At(t, i) == NUL || CrLfAt(t, i) || FieldAt(t, i, field) {
      SearchStops(t, i, field);
    } else if CrLfAt(t, j) {
      NextLine(t, i, j, next, field);
      LoopsExactly(t, next, field);
      StuckSame(t, i, j, next, field);
    } else {
      StuckHere(t, i, j, field);
    }
  }

  lemma SearchStops(t: string, i: nat, field: string)
    requires At(t, i) == NUL || CrLfAt(t, i) || FieldAt(t, i, field)
    ensures FindHeader(t, i, field) != Loops && forall c: nat :: !StuckAt(t, i, field, c)
  {
    assert LineStart(t, i, i);
  }

  lemma NextLine(t: string, i: nat, j: nat, next: nat, field: string)
    requires At(t, i) != NUL && !CrLfAt(t, i) && !FieldAt(t, i, field) && j == SkipToCr(t, i) && CrLfAt(t, j)
    requires next == j + 2
    ensures FindHeader(t, i, field) == FindHeader(t, next, field) && i < next <= |t|
  {
  }

  /** Where a line ends in a bare CR or in the NUL, the search is stuck at that CR or nowhere. */
  lemma StuckHere(t: string, i: nat, j: nat, field: string)
    requires At(t, i) != NUL && !CrLfAt(t, i) && !FieldAt(t, i, field) && j == SkipToCr(t, i) && !CrLfAt(t, j)
    ensures FindHeader(t, i, field) == Loops <==> exists c: nat :: StuckAt(t, i, field, c)
  {
    assert At(t, j) == NUL || BareCr(t, j);
    forall c: nat | StuckAt(t, i, field, c) ensures c == j && At(t, j) == '\r' && !FieldAt(t, j, field) {
    }
    if At(t, j) == '\r' && !FieldAt(t, j, field) {
      assert SkipToCr(t, j) == j;
      assert StuckAt(t, i, field, j);
    }
  }

  // ---- which line is found ----

  /**
    A line from index i on begins at p with the field and a colon, and before it there is no NUL, no bare CR, no blank
    line and no other line with the field.
   */
  ghost predicate FieldLine(t: string, i: nat, field: string, p: nat) {
    && i <= p && LineStart(t, i, p) && FieldAt(t, p, field)
    && (forall k | i <= k < p :: At(t, k) != NUL && !BareCr(t, k))
    && (forall b | i <= b < p && LineStart(t, i, b) :: !CrLfAt(t, b) && !FieldAt(t, b, field))
  }

  /** Where the value of the field that begins at p does: behind the colon and the blanks. */
  function ValueAt(t: string, field: string, p: nat): (v: nat)
    ensures FieldAt(t, p, field) ==> v <= |t|
  {
    SkipSpaces(t, p + |field| + 1)
  }

  predicate IsFieldName(field: string) {
    field != "" && field[0] != NUL && field[0] != '\r'
  }

  lemma FieldBegins(t: string, p: nat, field: string)
    requires IsFieldName(field) && FieldAt(t, p, field)
    ensures At(t, p) != NUL && At(t, p) != '\r'
  {
    assert Lower(At(t, p + 0)) == Lower(field[0]);
  }

  /** A CRLF at j is passed over: the lines behind it are the lines of the whole but for the first. */
  lemma LineBehind(t: string, i: nat, j: nat, next: nat, field: string, p: nat)
    requires j == SkipToCr(t, i) && CrLfAt(t, j) && next == j + 2 && FieldLine(t, i, field, p) && p != i
    ensures FieldLine(t, next, field, p)
  {
    LineStartBehind(t, i, j, p);
    forall b | next <= b < p && LineStart(t, next, b) ensures !CrLfAt(t, b) && !FieldAt(t, b, field) {
      assert LineStart(t, i, b);
    }
  }

  lemma LineAhead(t: string, i: nat, j: nat, next: nat, field: string, p: nat)
    requires j == SkipToCr(t, i) && CrLfAt(t, j) && next == j + 2 && FieldLine(t, next, field, p)
    requires !CrLfAt(t, i) && !FieldAt(t, i, field)
    ensures FieldLine(t, i, field, p)
  {
    assert At(t, j + 1) == '\n';
    forall k | i <= k < p ensures At(t, k) != NUL && !BareCr(t, k) {
      assert k < j || k == j || k == j + 1 || next <= k;
    }
    forall b | i <= b < p && LineStart(t, i, b) ensures !CrLfAt(t, b) && !FieldAt(t, b, field) {
      if b != i {
        LineStartBehind(t, i, j, b);
      }
    }
  }

  /** No line is found where a line ends in a bare CR or in the NUL. */
  lemma NoLineHere(t: string, i: nat, j: nat, field: string, p: nat)
    requires j == SkipToCr(t, i) && !CrLfAt(t, j) && !FieldAt(t, i, field)
    ensures !FieldLine(t, i, field, p)
  {
    assert At(t, j) == NUL || BareCr(t, j);
  }

  /** Two such lines are the same. */
  lemma OneFieldLine(t: string, i: nat, field: string, p: nat, p': nat)
    requires FieldLine(t, i, field, p) && FieldLine(t, i, field, p')
    ensures p == p'
  {
  }

  /** What the search finds is the value in the one line with the field, and it finds it exactly if there is one. */
  lemma {:induction false} FoundExactly(t: string, i: nat, field: string)
    requires IsFieldName(field)
    ensures forall p | FieldLine(t, i, field, p) :: FindHeader(t, i, field) == Found(ValueAt(t, field, p))
    ensures FindHeader(t, i, field).Found? ==> exists p :: FieldLine(t, i, field, p)
    decreases |t| - i
  {
    var j := SkipToCr(t, i);
    var next := j + 2;
    if FieldAt(t, i, field) {
      FieldBegins(t, i, field);
      assert FieldLine(t, i, field, i);
      forall p | FieldLine(t, i, field, p) ensures p == i {
        OneFieldLine(t, i, field, p, i);
      }
    } else if At(t, i) == NUL || CrLfAt(t, i) {
      forall p ensures !FieldLine(t, i, field, p) {
        assert LineStart(t, i, i);
      }
    } else if CrLfAt(t, j) {
      NextLine(t, i, j, next, field);
      FoundExactly(t, next, field);
      FoundBehind(t, i, j, next, field);
    } else {
      forall p ensures !FieldLine(t, i, field, p) {
        NoLineHere(t, i, j, field, p);
      }
      NotFoundAtCr(t, i, j, field);
    }
  }

  lemma FoundBehind(t: string, i: nat, j: nat, next: nat, field: string)
    requires j == SkipToCr(t, i) && CrLfAt(t, j) && next == j + 2 && !CrLfAt(t, i) && !FieldAt(t, i, field)
    ensures forall p :: FieldLine(t, i, field, p) <==> FieldLine(t, next, field, p)
  {
    forall p ensures FieldLine(t, i, field, p) <==> FieldLine(t, next, field, p) {
      if FieldLine(t, i, field, p) {
        LineBehind(t, i, j, next, field, p);
      } else if FieldLine(t, next, field, p) {
        LineAhead(t, i, j, next, field, p);
      }
    }
  }

  lemma NotFoundAtCr(t: string, i: nat, j: nat, field: string)
    requires IsFieldName(field) && j == SkipToCr(t, i) && !CrLfAt(t, j) && !FieldAt(t, i, field)
    requires At(t, i) != NUL && !CrLfAt(t, i)
    ensures !FindHeader(t, i, field).Found?
  {
    if FieldAt(t, j, field) {
      FieldBegins(t, j, field);
    }
  }

  /** A text without a bare CR is searched to an end. */
  lemma EndsWithoutBareCr(t: string, i: nat, field: string)
    requires forall k | i <= k :: !BareCr(t, k)
    ensures FindHeader(t, i, field) != Loops
  {
    LoopsExactly(t, i, field);
  }

  /** A header block the search does not get out of. */
  lemma BareCrLoops()
    ensures FindHeader("X\rY\r\n\r\n", 0, CONTENT_LENGTH) == Loops
    ensures forall toUint: string -> nat :: Frame("X\rY\r\n\r\n", toUint) == Hangs
  {
    var t := "X\rY\r\n\r\n";
    assert At(t, 0) == 'X' && At(t, 1) == '\r' && At(t, 2) == 'Y' && CONTENT_LENGTH[0] == 'C';
    assert Lower(At(t, 0 + 0)) != Lower(CONTENT_LENGTH[0]) && Lower(At(t, 1 + 0)) != Lower(CONTENT_LENGTH[0]);
    assert StuckAt(t, 0, CONTENT_LENGTH, 1);
    LoopsExactly(t, 0, CONTENT_LENGTH);
    assert EndsHeader(t, 7) && forall k | 0 <= k < 7 :: !EndsHeader(t, k);
    assert HeaderEnd(t, 0) == Some(7) && t[..7] == t;
  }

  // ---- framing ----

  const CONTENT_LENGTH: string := "Content-Length"

  /** What the byte stream t amounts to so far. `dataIdx` is 0 for a request without Content-Length. */
  datatype Framing = Incomplete | Request(text: string, dataIdx: nat) | Hangs

  function Frame(t: string, toUint: string -> nat): Framing {
    var h := HeaderEnd(t, 0);
    if h.None? then Incomplete
    else
      var header := t[..h.value];
      match FindHeader(header, 0, CONTENT_LENGTH)
      case Loops => Hangs
      case Absent(_) => Request(header, 0)
      case Found(p) =>
        var end := h.value + toUint(header[p..]);
        if end <= |t| then Request(t[..end], h.value) else Incomplete
  }

  /** Framing hangs exactly on streams whose complete header block the search is stuck in. */
  lemma HangsExactly(t: string, toUint: string -> nat)
    ensures Frame(t, toUint) == Hangs <==>
            HeaderEnd(t, 0).Some? && exists c: nat :: StuckAt(t[..HeaderEnd(t, 0).value], 0, CONTENT_LENGTH, c)
  {
    var h := HeaderEnd(t, 0);
    if h.Some? {
      LoopsExactly(t[..h.value], 0, CONTENT_LENGTH);
    }
  }

  lemma EndsHeaderPrefix(t: string, more: string, k: nat)
    requires k <= |t|
    ensures EndsHeader(t + more, k) <==> EndsHeader(t, k)
  {
  }

  /** More bytes do not move the end of the header. */
  lemma HeaderEndStable(t: string, more: string)
    requires HeaderEnd(t, 0).Some?
    ensures HeaderEnd(t + more, 0) == HeaderEnd(t, 0)
    ensures (t + more)[..HeaderEnd(t, 0).value] == t[..HeaderEnd(t, 0).value]
  {
    var h, h' := HeaderEnd(t, 0).value, HeaderEnd(t + more, 0);
    forall k | 0 <= k <= h ensures EndsHeader(t + more, k) <==> EndsHeader(t, k) {
      EndsHeaderPrefix(t, more, k);
    }
  }

  /** Once complete, a request stays what it is, whatever is received after it. */
  lemma FrameStable(t: string, more: string, toUint: string -> nat)
    requires !Frame(t, toUint).Incomplete?
    ensures Frame(t + more, toUint) == Frame(t, toUint)
  {
    HeaderEndStable(t, more);
    var f := Frame(t, toUint);
    if f.Request? {
      assert (t + more)[..|f.text|] == t[..|f.text|];
    }
  }

  lemma HeaderEndPush(t: string, c: char)
    requires HeaderEnd(t, 0).None?
    ensures HeaderEnd(t + [c], 0) == if EndsHeader(t + [c], |t| + 1) then Some(|t| + 1) else None
  {
    var r := HeaderEnd(t + [c], 0);
    if r.Some? && r.value <= |t| {
      EndsHeaderPrefix(t, [c], r.value);
    }
  }

  /**
    A request is the bytes through the first CRLF CRLF. If there is a Content-Length line among them, exactly as many
    bytes more as it announces; if there is none, no more.
   */
  lemma RequestShape(t: string, toUint: string -> nat)
    requires Frame(t, toUint).Request?
    ensures var f := Frame(t, toUint);
            var h := if f.dataIdx > 0 then f.dataIdx else |f.text|;
            && f.text <= t && EndsHeader(f.text, h) && (forall k | 0 <= k < h :: !EndsHeader(f.text, k))
            && if f.dataIdx > 0 then
                 exists p :: FieldLine(f.text[..h], 0, CONTENT_LENGTH, p)
                   && |f.text| - h == toUint(f.text[..h][ValueAt(f.text[..h], CONTENT_LENGTH, p)..])
               else
                 forall p :: !FieldLine(f.text, 0, CONTENT_LENGTH, p)
  {
    var f, h := Frame(t, toUint), HeaderEnd(t, 0).value;
    assert f.text[..h] == t[..h];
    forall k | 0 <= k < h ensures !EndsHeader(f.text, k) {
      assert !EndsHeader(t, k);
    }
    FoundExactly(t[..h], 0, CONTENT_LENGTH);
  }

  // ---- the case of a header name ----

  lemma LowerIs(a: char, b: char)
    ensures Lower(a) == Lower(b) <==> SameButCase(a as int, b as int)
  {
  }

  /** A name matches exactly if it differs from the field at most in the case of its letters. */
  lemma CaseEqualExactly(t: string, i: nat, field: string)
    ensures CaseEqualAt(t, i, field) <==>
            forall k | 0 <= k < |field| :: SameButCase(At(t, i + k) as int, field[k] as int)
  {
    forall k | 0 <= k < |field|
      ensures Lower(At(t, i + k)) == Lower(field[k]) <==> SameButCase(At(t, i + k) as int, field[k] as int)
    {
      LowerIs(At(t, i + k), field[k]);
    }
  }

  /** t2 is t but for the case of letters before index m. */
  ghost predicate SameButCaseBefore(t: string, t2: string, m: nat) {
    |t| == |t2| && forall k | 0 <= k < |t| :: if k < m then SameButCase(t[k] as int, t2[k] as int) else t[k] == t2[k]
  }

  lemma SameAt(t: string, t2: string, m: nat, k: nat)
    requires SameButCaseBefore(t, t2, m)
    ensures At(t2, k) == NUL <==> At(t, k) == NUL
    ensures At(t2, k) == '\r' <==> At(t, k) == '\r'
    ensures At(t2, k) == '\n' <==> At(t, k) == '\n'
    ensures At(t2, k) == ':' <==> At(t, k) == ':'
    ensures k >= m ==> At(t2, k) == At(t, k)
    ensures SameButCase(At(t, k) as int, At(t2, k) as int)
  {
  }

  lemma SameCrLf(t: string, t2: string, m: nat, k: nat)
    requires SameButCaseBefore(t, t2, m)
    ensures CrLfAt(t2, k) <==> CrLfAt(t, k)
  {
    SameAt(t, t2, m, k);
    SameAt(t, t2, m, k + 1);
  }

  lemma SameSpaces(t: string, t2: string, m: nat, i: nat)
    requires SameButCaseBefore(t, t2, m) && i >= m
    ensures SkipSpaces(t2, i) == SkipSpaces(t, i)
    decreases |t| - i
  {
    SameAt(t, t2, m, i);
    if At(t, i) == ' ' || At(t, i) == '\t' {
      SameSpaces(t, t2, m, i + 1);
    }
  }

  lemma SameSkip(t: string, t2: string, m: nat, i: nat)
    requires SameButCaseBefore(t, t2, m)
    ensures SkipToCr(t2, i) == SkipToCr(t, i)
    decreases |t| - i
  {
    SameAt(t, t2, m, i);
    if At(t, i) != NUL && At(t, i) != '\r' {
      SameSkip(t, t2, m, i + 1);
    }
  }

  lemma SameHeaderEnd(t: string, t2: string, m: nat)
    requires SameButCaseBefore(t, t2, m)
    ensures HeaderEnd(t2, 0) == HeaderEnd(t, 0)
  {
    forall k: nat ensures EndsHeader(t2, k) <==> EndsHeader(t, k) {
      if 4 <= k <= |t| {
        SameCrLf(t, t2, m, k - 4);
        SameCrLf(t, t2, m, k - 2);
      }
    }
    assert HeaderEnd(t, 0).Some? ==> EndsHeader(t2, HeaderEnd(t, 0).value);
    assert HeaderEnd(t2, 0).Some? ==> EndsHeader(t, HeaderEnd(t2, 0).value);
  }

  lemma SameFieldAt(t: string, t2: string, m: nat, b: nat, field: string)
    requires SameButCaseBefore(t, t2, m)
    ensures FieldAt(t2, b, field) <==> FieldAt(t, b, field)
  {
    CaseEqualExactly(t, b, field);
    CaseEqualExactly(t2, b, field);
    SameAt(t, t2, m, b + |field|);
    forall k | 0 <= k < |field|
      ensures SameButCase(At(t2, b + k) as int, field[k] as int) <==> SameButCase(At(t, b + k) as int, field[k] as int)
    {
      SameAt(t, t2, m, b + k);
    }
  }

  /** Index m is not behind the name of the line with the field, if there is one. */
  ghost predicate BeforeValue(t: string, i: nat, field: string, m: nat) {
    forall p: nat | FieldLine(t, i, field, p) :: m <= p + |field|
  }

  /** The search is the same whatever the case of the letters before the value. */
  lemma {:induction false} SameSearch(t: string, t2: string, m: nat, i: nat, field: string)
    requires SameButCaseBefore(t, t2, m) && IsFieldName(field)
    requires BeforeValue(t, i, field, m)
    ensures FindHeader(t2, i, field) == FindHeader(t, i, field)
    ensures FindHeader(t, i, field).Found? ==> m <= FindHeader(t, i, field).value
    decreases |t| - i
  {
    var j := SkipToCr(t, i);
    SameAt(t, t2, m, i);
    SameCrLf(t, t2, m, i);
    SameFieldAt(t, t2, m, i, field);
    SameSkip(t, t2, m, i);
    SameAt(t, t2, m, j);
    SameCrLf(t, t2, m, j);
    if At(t, i) == NUL || CrLfAt(t, i) {
    } else if FieldAt(t, i, field) {
      FieldHere(t, i, field);
      FieldHere(t2, i, field);
      SameSpaces(t, t2, m, i + |field| + 1);
    } else if CrLfAt(t, j) {
      var next := j + 2;
      FoundBehind(t, i, j, next, field);
      NextLine(t, i, j, next, field);
      NextLine(t2, i, j, next, field);
      SameSearch(t, t2, m, next, field);
    } else {
      StopsAtCr(t, i, j, field);
      StopsAtCr(t2, i, j, field);
    }
  }

  lemma FieldHere(t: string, i: nat, field: string)
    requires At(t, i) != NUL && !CrLfAt(t, i) && FieldAt(t, i, field)
    ensures FindHeader(t, i, field) == Found(SkipSpaces(t, i + |field| + 1)) && FieldLine(t, i, field, i)
  {
  }

  /** Where a line ends in a bare CR or in the NUL, no field is found. */
  lemma StopsAtCr(t: string, i: nat, j: nat, field: string)
    requires IsFieldName(field) && j == SkipToCr(t, i) && !CrLfAt(t, j)
    requires At(t, i) != NUL && !CrLfAt(t, i) && !FieldAt(t, i, field)
    ensures FindHeader(t, i, field) == if At(t, j) == NUL then Absent(j) else Loops
  {
    if FieldAt(t, j, field) {
      FieldBegins(t, j, field);
    }
    assert SkipToCr(t, j) == j;
  }

  /**
    Framing does not depend on the case of header names: of two streams that differ only in the case of letters before
    the value of the Content-Length line, if there is one, one is a request, or hangs, exactly if the other is, with as
    many bytes and the body at the same place.
   */
  lemma CaseDoesNotMatter(t: string, t2: string, m: nat, toUint: string -> nat)
    requires SameButCaseBefore(t, t2, m)
    requires HeaderEnd(t, 0).Some? ==> BeforeValue(t[..HeaderEnd(t, 0).value], 0, CONTENT_LENGTH, m)
    ensures match Frame(t, toUint)
            case Request(text, dataIdx) => Frame(t2, toUint) == Request(t2[..|text|], dataIdx)
            case f => Frame(t2, toUint) == f
  {
    SameHeaderEnd(t, t2, m);
    if HeaderEnd(t, 0).Some? {
      var h := HeaderEnd(t, 0).value;
      SameHeader(t[..h], t2[..h], m, CONTENT_LENGTH);
    }
  }

  lemma SameHeader(header: string, header2: string, m: nat, field: string)
    requires SameButCaseBefore(header, header2, m) && IsFieldName(field) && BeforeValue(header, 0, field, m)
    ensures FindHeader(header2, 0, field) == FindHeader(header, 0, field)
    ensures var r := FindHeader(header, 0, field); r.Found? ==> header2[r.value..] == header[r.value..]
  {
    SameSearch(header, header2, m, 0, field);
  }

  const LOWER_CASE: string := "P\r\ncontent-length: 2\r\n\r\n{}"

  lemma LowerCaseHeader()
    ensures |LOWER_CASE| == 26 && HeaderEnd(LOWER_CASE, 0) == Some(24)
  {
    var t := LOWER_CASE;
    assert forall k | 0 <= k < 24 :: !EndsHeader(t, k);
    assert EndsHeader(t, 24);
  }

  lemma LowerCaseParts()
    ensures LOWER_CASE == "P\r\n" + ("content-length" + (": 2\r\n\r\n" + "{}"))
  {
  }

  lemma LowerCaseLine(header: string)
    requires header == LOWER_CASE[..24]
    ensures FieldLine(header, 0, CONTENT_LENGTH, 3) && SkipSpaces(header, 18) == 19 && header[19..] == "2\r\n\r\n"
  {
    LowerCaseParts();
    LineOf(header, "P\r\n", "content-length", ": 2\r\n\r\n");
    assert header[17..] == ": 2\r\n\r\n";
    assert header[17] == ':' && header[18] == ' ' && header[19] == '2';
    LowerCaseName(header, 3);
    assert LineStart(header, 0, 3);
    FirstIsNoField(header);
    assert header[19..] == ": 2\r\n\r\n"[2..];
  }

  lemma LineOf(header: string, a: string, b: string, c: string)
    requires header == a + (b + c) && |a| == 3 && |b| == 14 && a == "P\r\n"
    ensures header[3..17] == b && header[17..] == c
    ensures At(header, 0) == 'P' && At(header, 1) == '\r' && At(header, 2) == '\n'
  {
    assert header[..3] == a;
  }

  lemma LowerCaseName(t: string, i: nat)
    requires i + 14 < |t| && t[i..i + 14] == "content-length" && t[i + 14] == ':'
    ensures FieldAt(t, i, CONTENT_LENGTH)
  {
    var name := "content-length";
    forall k | 0 <= k < 14 ensures SameButCase(At(t, i + k) as int, CONTENT_LENGTH[k] as int) {
      assert At(t, i + k) == t[i..i + 14][k] == name[k];
      assert k < 5 || k == 5 || k == 6 || k == 7 || k == 8 || k == 9 || k == 10 || k == 11 || k == 12 || k == 13;
      assert k == 0 || k == 1 || k == 2 || k == 3 || k == 4 || k >= 5;
    }
    CaseEqualExactly(t, i, CONTENT_LENGTH);
  }

  lemma FirstIsNoField(t: string)
    requires At(t, 0) == 'P'
    ensures !FieldAt(t, 0, CONTENT_LENGTH)
  {
    assert Lower(At(t, 0 + 0)) != Lower(CONTENT_LENGTH[0]);
  }

  /** A request with a lower-case Content-Length line has its body. */
  lemma LowerCaseExample(toUint: string -> nat)
    requires toUint("2\r\n\r\n") == 2
    ensures Frame("P\r\ncontent-length: 2\r\n\r\n{}", toUint)
            == Request("P\r\ncontent-length: 2\r\n\r\n{}", 24)
  {
    LowerCaseHeader();
    LowerCaseLine(LOWER_CASE[..24]);
    FoundExactly(LOWER_CASE[..24], 0, CONTENT_LENGTH);
    assert LOWER_CASE[..26] == LOWER_CASE;
  }
}
