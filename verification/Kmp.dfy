/**
  Substring search of utstring.h: Knuth-Morris-Pratt with the strong failure table, in both directions.

  `IsFail` says what a table entry must be, `Occurs` what an occurrence is. The step lemmas are about the
  left-to-right direction; the right-to-left methods use them on the reversed texts, of which they are the exact mirror.
 */
module Kmp {

  /** The prefix of p of length j is a suffix of its prefix of length i, and shorter. */
  ghost predicate Border(p: string, i: int, j: int) {
    0 <= j < i <= |p| && forall k | 0 <= k < j :: p[k] == p[i - j + k]
  }

  /** A border of length j the search can usefully fall back to after a mismatch at index i. */
  ghost predicate Fallback(p: string, i: int, j: int) {
    Border(p, i, j) && (i < |p| ==> p[j] != p[i])
  }

  /** f is the entry of the strong failure table for index i: the longest fallback, or -1. */
  ghost predicate IsFail(p: string, i: int, f: int) {
    -1 <= f < i && (f >= 0 ==> Fallback(p, i, f)) && forall k | f < k < i :: !Fallback(p, i, k)
  }

  lemma BorderTrans(p: string, i: int, j: int, k: int)
    requires Border(p, i, j) && Border(p, j, k)
    ensures Border(p, i, k)
  {
    forall m | 0 <= m < k ensures p[m] == p[i - k + m] {
      assert p[m] == p[j - k + m];
      assert p[j - k + m] == p[i - j + (j - k + m)];
    }
  }

  lemma BorderInner(p: string, i: int, j: int, k: int)
    requires Border(p, i, j) && Border(p, i, k) && k < j
    ensures Border(p, j, k)
  {
    forall m | 0 <= m < k ensures p[m] == p[j - k + m] {
      assert p[m] == p[i - k + m];
      assert p[j - k + m] == p[i - j + (j - k + m)];
    }
  }

  // ---- building the table ----

  /** While the table is built: j is a border of p[..i], or -1, and no longer border continues with p[i]. */
  ghost predicate Candidate(p: string, i: int, j: int) {
    -1 <= j < i && (j >= 0 ==> Border(p, i, j)) && forall k | j < k < i && Border(p, i, k) :: i < |p| ==> p[k] != p[i]
  }

  /** j is the longest border of p[..i]; -1 for i == 0. */
  ghost predicate Longest(p: string, i: int, j: int) {
    if i == 0 then j == -1 else Border(p, i, j) && forall k | j < k < i :: !Border(p, i, k)
  }

  lemma FallBack(p: string, i: int, j: int, f: int)
    requires 0 <= i < |p| && 0 <= j && Candidate(p, i, j) && p[i] != p[j] && IsFail(p, j, f)
    ensures Candidate(p, i, f)
  {
    if f >= 0 {
      BorderTrans(p, i, j, f);
    }
    forall k | f < k < i && Border(p, i, k) ensures p[k] != p[i] {
      if k < j {
        BorderInner(p, i, j, k);
        assert !Fallback(p, j, k);
      }
    }
  }

  /** A border that takes in p[i] extends a border of p[..i]. */
  lemma BorderShrink(p: string, i: int, k: int)
    requires Border(p, i + 1, k) && k >= 1
    ensures Border(p, i, k - 1) && p[k - 1] == p[i]
  {
    assert p[k - 1] == p[i + 1 - k + (k - 1)];
    forall m | 0 <= m < k - 1 ensures p[m] == p[i - (k - 1) + m] {
      assert p[m] == p[i + 1 - k + m];
    }
  }

  lemma Extend(p: string, i: int, j: int)
    requires 0 <= i < |p| && Candidate(p, i, j) && (j >= 0 ==> p[i] == p[j])
    ensures Longest(p, i + 1, j + 1)
  {
    var i1 := i + 1;
    forall k | j + 1 < k < i1 ensures !Border(p, i1, k) {
      if Border(p, i1, k) {
        BorderShrink(p, i, k);
      }
    }
    forall m | 0 <= m < j + 1 ensures p[m] == p[i - j + m] {
      if m < j {
        assert p[m] == p[i - j + m];
      }
    }
  }

  /** The entry written for index i, whose longest border is j, given the entry f for j. */
  lemma Entry(p: string, i: int, j: int, f: int)
    requires 0 < i <= |p| && Longest(p, i, j)
    requires i < |p| ==> IsFail(p, j, f)
    ensures IsFail(p, i, if i < |p| && p[i] == p[j] then f else j)
  {
    if i < |p| && p[i] == p[j] {
      if f >= 0 {
        BorderTrans(p, i, j, f);
      }
      forall k | f < k < i ensures !Fallback(p, i, k) {
        if k < j && Border(p, i, k) {
          BorderInner(p, i, j, k);
          assert !Fallback(p, j, k);
        }
      }
    }
  }

  ghost predicate IsTable(p: string, t: seq<int>, n: nat) {
    n <= |t| && forall k | 0 <= k < n :: IsFail(p, k, t[k])
  }

  lemma AddEntry(p: string, t: seq<int>, n: nat, f: int)
    requires n < |t| && IsTable(p, t, n) && IsFail(p, n, f)
    ensures IsTable(p, t[n := f], n + 1)
  {
  }

  /** The inner loop of _utstring_BuildTable. */
  method FallBackL(p: string, table: array<int>, i: nat, j0: int) returns (j: int)
    requires i < |p| && Longest(p, i, j0) && IsTable(p, table[..], i + 1)
    ensures Candidate(p, i, j) && (j >= 0 ==> p[i] == p[j])
  {
    j := j0;
    while j > -1 && p[i] != p[j]
      invariant Candidate(p, i, j)
    {
      FallBack(p, i, j, table[..][j]);
      j := table[j];
    }
  }

  /** The entry _utstring_BuildTable writes after the inner loop. */
  method WriteEntryL(p: string, table: array<int>, i: nat, j: nat)
    requires 0 < i <= |p| && table.Length == |p| + 1 && Longest(p, i, j) && IsTable(p, table[..], i)
    modifies table
    ensures IsTable(p, table[..], i + 1)
  {
    ghost var before := table[..];
    Entry(p, i, j, before[j]);
    if i < |p| {
      if p[i] == p[j] {
        table[i] := table[j];
      } else {
        table[i] := j;
      }
    } else {
      table[i] := j;
    }
    assert table[..] == before[i := table[i]];
    AddEntry(p, before, i, table[i]);
  }

  /** _utstring_BuildTable */
  method BuildTable(p: string, table: array<int>)
    requires table.Length == |p| + 1
    modifies table
    ensures IsTable(p, table[..], |p| + 1)
  {
    var i, j := 0, -1;
    table[i] := j;
    while i < |p|
      invariant 0 <= i <= |p| && Longest(p, i, j)
      invariant IsTable(p, table[..], i + 1)
    {
      j := FallBackL(p, table, i, j);
      Extend(p, i, j);
      i := i + 1;
      j := j + 1;
      WriteEntryL(p, table, i, j);
    }
  }

  // ---- searching ----

  ghost predicate Occurs(h: string, p: string, s: int) {
    0 <= s && s + |p| <= |h| && forall k | 0 <= k < |p| :: p[k] == h[s + k]
  }

  /** While searching: p[..i] ends before index j of the haystack, and no occurrence starts before it. */
  ghost predicate Matched(h: string, p: string, i: int, j: int) {
    && -1 <= i <= |p| && i <= j <= |h|
    && (forall k | 0 <= k < i :: p[k] == h[j - i + k])
    && (forall s | s < j - i :: !Occurs(h, p, s))
  }

  /** After a mismatch, no occurrence starts between the old alignment and the one the table gives. */
  lemma Shift(h: string, p: string, i: int, j: int, f: int)
    requires 0 <= i < |p| && j < |h| && Matched(h, p, i, j) && p[i] != h[j] && IsFail(p, i, f)
    ensures Matched(h, p, f, j)
  {
    if f >= 0 {
      forall k | 0 <= k < f ensures p[k] == h[j - f + k] {
        assert p[k] == p[i - f + k];
        assert p[i - f + k] == h[j - i + (i - f + k)];
      }
    }
    forall s | s < j - f ensures !Occurs(h, p, s) {
      if j - i <= s && Occurs(h, p, s) {
        Aligned(h, p, i, j, s);
      }
    }
  }

  /** An occurrence that overlaps what is matched makes the overlap a border that continues with h[j]. */
  lemma Aligned(h: string, p: string, i: int, j: int, s: int)
    requires 0 <= i < |p| && j < |h| && Matched(h, p, i, j) && j - i <= s <= j && Occurs(h, p, s)
    ensures p[j - s] == h[j] && (j - s < i ==> Border(p, i, j - s))
    ensures j - s < i && p[j - s] != p[i] ==> Fallback(p, i, j - s)
  {
    var k := j - s;
    assert p[k] == h[s + k];
    forall m | 0 <= m < k && k < i ensures p[m] == p[i - k + m] {
      assert p[m] == h[s + m];
      assert p[i - k + m] == h[j - i + (i - k + m)];
    }
  }

  lemma Step(h: string, p: string, i: int, j: int)
    requires j < |h| && i < |p| && Matched(h, p, i, j) && (i >= 0 ==> p[i] == h[j])
    ensures Matched(h, p, i + 1, j + 1)
  {
    forall k | 0 <= k < i + 1 ensures p[k] == h[j - i + k] {
      if k < i {
        assert p[k] == h[j - i + k];
      }
    }
  }

  lemma Found(h: string, p: string, j: int)
    requires Matched(h, p, |p|, j)
    ensures Occurs(h, p, j - |p|) && forall s | Occurs(h, p, s) :: j - |p| <= s
  {
  }

  /** A size_t cast to a 32-bit int. */
  function CInt(x: nat): int {
    (x + 0x8000_0000) % 0x1_0000_0000 - 0x8000_0000
  }

  /** The one number of 32 bits with a sign that differs from x by a multiple of 2^32. */
  lemma CIntExactly(x: nat, n: int)
    ensures n == CInt(x) <==> -0x8000_0000 <= n < 0x8000_0000 && (x - n) % 0x1_0000_0000 == 0
  {
    var y, m := x + 0x8000_0000, n + 0x8000_0000;
    if 0 <= m < 0x1_0000_0000 && (y - m) % 0x1_0000_0000 == 0 {
      assert y == 0x1_0000_0000 * ((y - m) / 0x1_0000_0000) + m;
    }
  }

  /** The part of the needle the search compares: as many characters as its length is as an `int`, but at least one. */
  function Cut(p: string): (e: string)
    requires p != ""
    ensures 0 < |e| <= |p| && e == p[..|e|]
    ensures |p| < 0x8000_0000 ==> e == p
  {
    if CInt(|p|) < 1 then p[..1] else p[..CInt(|p|)]
  }

  lemma CutTable(p: string, t: seq<int>)
    requires p != "" && IsTable(p, t, |p| + 1)
    ensures IsTable(Cut(p), t, |Cut(p)|)
  {
    var e := Cut(p);
    forall k | 0 <= k < |e| ensures IsFail(e, k, t[k]) {
      assert IsFail(p, k, t[k]);
      forall f | Border(e, k, f) || Border(p, k, f) ensures Fallback(e, k, f) <==> Fallback(p, k, f) {
        SameBorder(p, e, k, f);
      }
    }
  }

  lemma SameBorder(p: string, e: string, k: int, f: int)
    requires |e| <= |p| && e == p[..|e|] && k < |e|
    ensures Border(e, k, f) <==> Border(p, k, f)
  {
  }

  /**
    What a search of h for p returns: the first occurrence, among those that end within the first (int)P_HaystackLen
    characters, which is all of them for lengths below 2^31. Of a needle of 2^31 characters or more only the cut is
    compared, or nothing but the first character.
   */
  ghost predicate FirstOf(h: string, p: string, r: int)
    requires p != ""
  {
    if CInt(|p|) <= 0 < CInt(|h|) && |p| <= |h| then r == if h[0] == p[0] then 0 else 1
    else if r >= 0 then
      && Occurs(h, Cut(p), r) && r + |p| <= |h| && r + |Cut(p)| <= CInt(|h|)
      && forall s | Occurs(h, Cut(p), s) :: r <= s
    else
      && r == -1
      && forall s | Occurs(h, Cut(p), s) && s + |p| <= |h| :: s + |Cut(p)| > CInt(|h|)
  }

  lemma FirstOfShort(h: string, p: string, r: int)
    requires 0 < |p| < 0x8000_0000
    ensures FirstOf(h, p, r) <==>
            if r >= 0 then Occurs(h, p, r) && r + |p| <= CInt(|h|) && forall s | Occurs(h, p, s) :: r <= s
            else r == -1 && forall s | Occurs(h, p, s) :: s + |p| > CInt(|h|)
  {
    assert CInt(|p|) == |p| && Cut(p) == p;
  }

  /** _utstring_find */
  method FindIn(h: string, p: string, table: array<int>) returns (r: int)
    requires p != "" && IsTable(p, table[..], |p| + 1)
    ensures FirstOf(h, p, r)
  {
    var i, j := 0, 0;
    ghost var e := Cut(p);
    CutTable(p, table[..]);
    while j < CInt(|h|) && |h| - j + i >= |p|
      invariant 0 <= i < |e| && Matched(h, e, i, j)
      invariant CInt(|p|) <= 0 ==> j == 0
    {
      ghost var was := i;
      while i > -1 && p[i] != h[j]
        invariant i <= was && Matched(h, e, i, j)
      {
        Shift(h, e, i, j, table[..][i]);
        i := table[i];
      }
      Step(h, e, i, j);
      i := i + 1;
      j := j + 1;
      if i >= CInt(|p|) {
        FoundFirst(h, p, i, j, was);
        return j - i;
      }
    }
    NotFound(h, p, i, j);
    r := -1;
  }

  lemma FoundFirst(h: string, p: string, i: int, j: int, was: int)
    requires p != "" && Matched(h, Cut(p), i, j) && 0 <= i <= was + 1 <= |Cut(p)| && CInt(|p|) <= i && j <= CInt(|h|)
    requires |h| - (j - 1) + was >= |p| && (CInt(|p|) <= 0 ==> j == 1)
    ensures FirstOf(h, p, j - i)
  {
    if CInt(|p|) <= 0 {
      assert i == 0 ==> !Occurs(h, Cut(p), 0);
    } else {
      Found(h, Cut(p), j);
    }
  }

  lemma NotFound(h: string, p: string, i: int, j: int)
    requires p != "" && 0 <= i < |Cut(p)| && Matched(h, Cut(p), i, j) && !(j < CInt(|h|) && |h| - j + i >= |p|)
    requires CInt(|p|) <= 0 ==> i == j == 0
    ensures FirstOf(h, p, -1)
  {
  }

  /** An occurrence at the end of 2^31 characters, whose number is negative as an int, is not reported. */
  method MissedOccurrence() returns (h: string, r: int)
    ensures |h| == 0x8000_0000 && Occurs(h, "x", 0x7FFF_FFFF) && r == -1
  {
    h := seq(0x8000_0000, k => if k == 0x7FFF_FFFF then 'x' else 'a');
    var table := new int[2];
    BuildTable("x", table);
    r := FindIn(h, "x", table);
    FirstOfShort(h, "x", r);
    assert Occurs(h, "x", 0x7FFF_FFFF);
  }

  // ---- the mirror ----

  /** q is p reversed. */
  ghost predicate Mirror(p: string, q: string) {
    |q| == |p| && forall k | 0 <= k < |p| :: q[k] == p[|p| - 1 - k]
  }

  /** From entry lo on, the right-to-left table t mirrors the left-to-right table u of the reversed needle. */
  ghost predicate MirrorTable(t: seq<int>, u: seq<int>, n: nat, lo: nat) {
    |t| == |u| == n + 1 && forall x | lo <= x <= n :: t[x] == n - 1 - u[n - x]
  }

  /** The inner loop of _utstring_BuildTableR. */
  method FallBackR(p: string, table: array<int>, i: nat, j0: int, ghost q: string, ghost left: seq<int>,
                   ghost u: nat, ghost v0: int)
    returns (j: int, ghost v: int)
    requires Mirror(p, q) && Longest(q, u, v0) && u < |p| && i == |p| - 1 - u && j0 == |p| - 1 - v0
    requires IsTable(q, left, u + 1) && MirrorTable(table[..], left, |p|, |p| - u)
    ensures Candidate(q, u, v) && (v >= 0 ==> q[u] == q[v]) && j == |p| - 1 - v
  {
    var n := |p|;
    j, v := j0, v0;
    while j < n && p[i] != p[j]
      invariant Candidate(q, u, v) && j == n - 1 - v
      decreases n - j
    {
      assert q[u] == p[i] && q[v] == p[j];
      FallBack(q, u, v, left[v]);
      assert table[..][j + 1] == n - 1 - left[v];
      j, v := table[j + 1], left[v];
    }
    assert q[u] == p[i] && (v >= 0 ==> q[v] == p[j]);
  }

  /** The entry that loop writes once the next border is known. */
  method WriteEntryR(p: string, table: array<int>, i: int, j: int, ghost q: string, ghost left: seq<int>,
                     ghost u: nat, ghost v: nat)
    returns (ghost left': seq<int>)
    requires Mirror(p, q) && 0 < u <= |p| && Longest(q, u, v) && i == |p| - 1 - u && j == |p| - 1 - v
    requires table.Length == |p| + 1
    requires IsTable(q, left, u) && MirrorTable(table[..], left, |p|, |p| + 1 - u)
    modifies table
    ensures IsTable(q, left', u + 1) && MirrorTable(table[..], left', |p|, |p| - u)
  {
    Entry(q, u, v, left[v]);
    ghost var before, entry := table[..], if u < |p| && q[u] == q[v] then left[v] else v;
    AddEntry(q, left, u, entry);
    left' := left[u := entry];
    if i >= 0 {
      assert q[u] == p[i] && q[v] == p[j];
      assert before[j + 1] == |p| - 1 - left[v];
      if p[i] == p[j] {
        table[i + 1] := table[j + 1];
      } else {
        table[i + 1] := j;
      }
    } else {
      table[i + 1] := j;
    }
    assert table[..] == before[i + 1 := |p| - 1 - entry];
  }

  /** _utstring_BuildTableR; `left` is the left-to-right table of the reversed needle. */
  method BuildTableR(p: string, table: array<int>, ghost q: string) returns (ghost left: seq<int>)
    requires table.Length == |p| + 1 && Mirror(p, q)
    modifies table
    ensures IsTable(q, left, |p| + 1) && MirrorTable(table[..], left, |p|, 0)
  {
    var n := |p|;
    var i := n - 1;
    var j := i + 1;
    left := seq(n + 1, k => -1);
    ghost var u, v := 0, -1;
    table[i + 1] := j;
    while i >= 0
      invariant 0 <= u <= n && Longest(q, u, v)
      invariant i == n - 1 - u && j == n - 1 - v
      invariant IsTable(q, left, u + 1) && MirrorTable(table[..], left, n, n - u)
      decreases i + 1
    {
      j, v := FallBackR(p, table, i, j, q, left, u, v);
      Extend(q, u, v);
      i, u := i - 1, u + 1;
      j, v := j - 1, v + 1;
      left := WriteEntryR(p, table, i, j, q, left, u, v);
    }
  }

  lemma OccursMirrored(h: string, p: string, g: string, q: string, s: int)
    requires Mirror(h, g) && Mirror(p, q) && Occurs(h, p, s)
    ensures Occurs(g, q, |h| - |p| - s)
  {
    forall k | 0 <= k < |p| ensures q[k] == g[|h| - |p| - s + k] {
      assert p[|p| - 1 - k] == h[s + (|p| - 1 - k)];
    }
  }

  lemma Unmirrored(h: string, p: string, g: string, q: string, s: int)
    requires Mirror(h, g) && Mirror(p, q) && Occurs(g, q, s)
    ensures Occurs(h, p, |h| - |p| - s)
  {
    forall k | 0 <= k < |p| ensures p[k] == h[|h| - |p| - s + k] {
      assert q[|p| - 1 - k] == g[s + (|p| - 1 - k)];
    }
  }

  /** Where the last occurrence is, by the first one in the mirror. */
  lemma LastByFirst(h: string, p: string, g: string, q: string, s: int)
    requires Mirror(h, g) && Mirror(p, q)
    requires Occurs(g, q, s) && forall s' | Occurs(g, q, s') :: s <= s'
    ensures Occurs(h, p, |h| - |p| - s) && forall s' | Occurs(h, p, s') :: s' <= |h| - |p| - s
  {
    Unmirrored(h, p, g, q, s);
    forall s' | Occurs(h, p, s') ensures s' <= |h| - |p| - s {
      OccursMirrored(h, p, g, q, s');
    }
  }

  lemma NoneByNone(h: string, p: string, g: string, q: string)
    requires Mirror(h, g) && Mirror(p, q) && forall s :: !Occurs(g, q, s)
    ensures forall s :: !Occurs(h, p, s)
  {
    forall s ensures !Occurs(h, p, s) {
      if Occurs(h, p, s) {
        OccursMirrored(h, p, g, q, s);
      }
    }
  }

  /** How many characters of the needle the search from the right compares: its length as an `int`. */
  function Compared(p: string): (n: nat)
    ensures n <= |p|
    ensures |p| < 0x8000_0000 ==> n == |p|
    ensures |p| >= 0x8000_0000 ==> n < |p|
  {
    if CInt(|p|) < 0 then 0 else CInt(|p|)
  }

  /** The last of the first n characters of the needle that differs from the text at alignment a, or -1. */
  function LastDiff(h: string, p: string, a: nat, n: nat): (i: int)
    requires n <= |p| && a + n <= |h|
    ensures -1 <= i < n && (i >= 0 ==> p[i] != h[a + i]) && forall k | i < k < n :: p[k] == h[a + k]
  {
    if n == 0 then -1 else if p[n - 1] != h[a + n - 1] then n - 1 else LastDiff(h, p, a, n - 1)
  }

  /** The longest useful fallback from index u that is not longer than k, or -1. */
  ghost function LongestFallback(q: string, u: int, k: int): (f: int)
    requires -1 <= k < u
    ensures -1 <= f <= k && (f >= 0 ==> Fallback(q, u, f)) && forall x | f < x <= k :: !Fallback(q, u, x)
    decreases k + 1
  {
    if k < 0 || Fallback(q, u, k) then k else LongestFallback(q, u, k - 1)
  }

  lemma FailIsLongest(q: string, u: int, f: int)
    requires u >= 0 && IsFail(q, u, f)
    ensures f == LongestFallback(q, u, u - 1)
  {
  }

  /** Where the needle is aligned next when the comparison at a fails at index i. */
  ghost function NextAlignment(p: string, a: int, i: nat): (b: int)
    requires i < |p|
    ensures b < a
  {
    a - (|p| - 1 - i) + LongestFallback(Reversed(p), |p| - 1 - i, |p| - 2 - i)
  }

  /** The first alignment from a downwards, in the steps of the table, at which all compared characters agree, or -1. */
  ghost function AlignedFrom(h: string, p: string, a: int): int
    requires p != "" && a + |p| <= |h|
    decreases a + 1
  {
    if a < 0 then -1
    else
      var i := LastDiff(h, p, a, Compared(p));
      if i < 0 then a else AlignedFrom(h, p, NextAlignment(p, a, i))
  }

  /**
    What a search of h for p from the right returns: the last occurrence of a needle shorter than 2^31. Of a longer one
    only as many characters are compared as its length is as an `int`, while the steps are those of the whole needle.
   */
  ghost predicate LastOf(h: string, p: string, r: int)
    requires p != ""
  {
    if |p| < 0x8000_0000 then IsLast(h, p, r) else r == AlignedFrom(h, p, |h| - |p|)
  }

  ghost predicate IsLast(h: string, p: string, r: int) {
    if r >= 0 then Occurs(h, p, r) && forall s | Occurs(h, p, s) :: s <= r
    else r == -1 && forall s :: !Occurs(h, p, s)
  }

  /**
    While searching from the right: what is matched of a short needle, in the mirror; of a long one, what the compared
    part has matched, and that the alignments from here on decide.
   */
  ghost predicate MatchedR(h: string, p: string, g: string, q: string, u: int, v: int)
    requires p != "" && Mirror(h, g) && Mirror(p, q)
  {
    && -1 <= u <= |p| && u <= v <= |h|
    && (|p| < 0x8000_0000 ==> Matched(g, q, u, v))
    && (forall x | 0 <= x < u && |p| - 1 - x < CInt(|p|) :: q[x] == g[v - u + x])
    && Decides(h, p, |h| - |p| - (v - u))
  }

  /** From alignment a on the search ends as it does from the first one. */
  ghost predicate Decides(h: string, p: string, a: int)
    requires p != "" && a + |p| <= |h|
  {
    AlignedFrom(h, p, a) == AlignedFrom(h, p, |h| - |p|)
  }

  lemma StartR(h: string, p: string, g: string, q: string)
    requires p != "" && Mirror(h, g) && Mirror(p, q)
    ensures MatchedR(h, p, g, q, 0, 0)
  {
  }

  /** A mismatch at i behind which everything compared is matched leads to the alignment the table gives. */
  lemma Realigned(h: string, p: string, a: nat, i: nat)
    requires p != "" && a + |p| <= |h| && i < Compared(p) && p[i] != h[a + i]
    requires forall k | i < k < Compared(p) :: p[k] == h[a + k]
    ensures AlignedFrom(h, p, NextAlignment(p, a, i)) == AlignedFrom(h, p, a)
  {
    LastDiffAt(h, p, a, i, Compared(p));
    AlignNext(h, p, a, i);
  }

  lemma LastDiffAt(h: string, p: string, a: nat, i: nat, n: nat)
    requires i < n <= |p| && a + n <= |h| && p[i] != h[a + i] && forall k | i < k < n :: p[k] == h[a + k]
    ensures LastDiff(h, p, a, n) == i
  {
  }

  lemma AlignNext(h: string, p: string, a: nat, i: nat)
    requires p != "" && a + |p| <= |h| && i < |p| && LastDiff(h, p, a, Compared(p)) == i
    ensures AlignedFrom(h, p, a) == AlignedFrom(h, p, NextAlignment(p, a, i))
  {
  }

  lemma NextByTable(p: string, q: string, a: int, b: int, i: nat, u: nat, f: int)
    requires Mirror(p, q) && i == |p| - 1 - u && u < |p| && IsFail(q, u, f) && b == a - u + f
    ensures NextAlignment(p, a, i) == b
  {
    FailIsLongest(q, u, f);
    assert q == Reversed(p);
  }

  lemma MatchedBehind(h: string, p: string, g: string, q: string, u: nat, v: nat, a: nat, i: nat)
    requires p != "" && Mirror(h, g) && Mirror(p, q) && u < |p| && u <= v < |h|
    requires a == |h| - v - (|p| - u) && i == |p| - 1 - u && i < Compared(p)
    requires forall x | 0 <= x < u && |p| - 1 - x < CInt(|p|) :: q[x] == g[v - u + x]
    ensures forall k | i < k < Compared(p) :: p[k] == h[a + k]
    ensures q[u] == p[i] && g[v] == h[a + i]
  {
    forall k | i < k < Compared(p) ensures p[k] == h[a + k] {
      assert q[|p| - 1 - k] == g[v - u + (|p| - 1 - k)];
    }
  }

  /** The part of q from lo on that matches before index v of g still does at a fallback. */
  lemma ComparedShift(q: string, g: string, u: nat, v: nat, f: int, lo: int)
    requires u < |q| && u <= v <= |g| && f < u && (f >= 0 ==> Border(q, u, f))
    requires forall x | 0 <= x < u && lo < x :: q[x] == g[v - u + x]
    ensures forall x | 0 <= x < f && lo < x :: q[x] == g[v - f + x]
  {
    forall x | 0 <= x < f && lo < x ensures q[x] == g[v - f + x] {
      var y := u - f + x;
      assert q[x] == q[y] && q[y] == g[v - u + y];
    }
  }

  lemma DecidesNext(h: string, p: string, g: string, q: string, u: nat, v: nat, f: int, a: int, b: int, i: nat)
    requires p != "" && Mirror(h, g) && Mirror(p, q) && u < |p| && u <= v < |h|
    requires a == |h| - |p| - (v - u) && b == |h| - |p| - (v - f) && i == |p| - 1 - u
    requires Decides(h, p, a) && forall x | 0 <= x < u && |p| - 1 - x < CInt(|p|) :: q[x] == g[v - u + x]
    requires i < CInt(|p|) && q[u] != g[v] && IsFail(q, u, f)
    ensures Decides(h, p, b)
  {
    NextByTable(p, q, a, b, i, u, f);
    if a >= 0 {
      MatchedBehind(h, p, g, q, u, v, a, i);
      Realigned(h, p, a, i);
    }
  }

  lemma DecidesShift(h: string, p: string, g: string, q: string, u: nat, v: nat, f: int)
    requires p != "" && Mirror(h, g) && Mirror(p, q) && MatchedR(h, p, g, q, u, v)
    requires u < |p| && v < |h| && |p| - 1 - u < CInt(|p|) && q[u] != g[v] && IsFail(q, u, f)
    ensures Decides(h, p, |h| - |p| - (v - f))
  {
    DecidesNext(h, p, g, q, u, v, f, |h| - |p| - (v - u), |h| - |p| - (v - f), |p| - 1 - u);
  }

  lemma ShiftR(h: string, p: string, g: string, q: string, u: nat, v: nat, f: int)
    requires p != "" && Mirror(h, g) && Mirror(p, q) && MatchedR(h, p, g, q, u, v)
    requires u < |p| && v < |h| && |p| - 1 - u < CInt(|p|) && q[u] != g[v] && IsFail(q, u, f)
    ensures MatchedR(h, p, g, q, f, v)
  {
    if |p| < 0x8000_0000 {
      Shift(g, q, u, v, f);
    }
    DecidesShift(h, p, g, q, u, v, f);
    ComparedShift(q, g, u, v, f, |p| - 1 - CInt(|p|));
  }

  lemma StepR(h: string, p: string, g: string, q: string, u: int, v: int)
    requires p != "" && Mirror(h, g) && Mirror(p, q) && MatchedR(h, p, g, q, u, v)
    requires u < |p| && v < |h|
    requires u >= 0 && |p| - 1 - u < CInt(|p|) ==> q[u] == g[v]
    ensures MatchedR(h, p, g, q, u + 1, v + 1)
  {
    if |p| < 0x8000_0000 {
      Step(g, q, u, v);
    }
  }

  /** The search from the right with its cursors at i and j. */
  ghost predicate Searching(h: string, p: string, g: string, q: string, i: int, j: int)
    requires p != "" && Mirror(h, g) && Mirror(p, q)
  {
    MatchedR(h, p, g, q, |p| - 1 - i, |h| - 1 - j)
  }

  lemma FoundLast(h: string, p: string, g: string, q: string, j: int)
    requires p != "" && Mirror(h, g) && Mirror(p, q) && Searching(h, p, g, q, -1, j)
    ensures j >= -1 && LastOf(h, p, j + 1)
  {
    var r, v := j + 1, |h| - 1 - j;
    if |p| < 0x8000_0000 {
      Found(g, q, v);
      LastByFirst(h, p, g, q, v - |p|);
    } else {
      forall k | 0 <= k < Compared(p) ensures p[k] == h[r + k] {
        assert q[|p| - 1 - k] == g[v - |p| + (|p| - 1 - k)];
      }
      assert LastDiff(h, p, r, Compared(p)) == -1;
    }
  }

  lemma NotFoundR(h: string, p: string, g: string, q: string, i: int, j: int)
    requires p != "" && Mirror(h, g) && Mirror(p, q) && Searching(h, p, g, q, i, j)
    requires 0 <= i && !(j >= 0 && j >= i)
    ensures LastOf(h, p, -1)
  {
    if |p| < 0x8000_0000 {
      NoneByNone(h, p, g, q);
    }
  }

  lemma MirrorEntry(t: seq<int>, left: seq<int>, n: nat, i: nat, u: nat)
    requires MirrorTable(t, left, n, 0) && u < n && i == n - 1 - u
    ensures t[i + 1] == n - 1 - left[u]
  {
  }

  /** One step of that loop: the table leads to an alignment further left. */
  lemma StepBack(h: string, p: string, g: string, q: string, t: seq<int>, left: seq<int>, i: nat, j: nat)
    requires p != "" && Mirror(h, g) && Mirror(p, q) && i < |p| && j < |h| && Searching(h, p, g, q, i, j)
    requires IsTable(q, left, |p| + 1) && MirrorTable(t, left, |p|, 0)
    requires i < CInt(|p|) && p[i] != h[j]
    ensures i < t[i + 1] <= |p| && Searching(h, p, g, q, t[i + 1], j)
  {
    var u, v := |p| - 1 - i, |h| - 1 - j;
    MirrorEntry(t, left, |p|, i, u);
    ShiftR(h, p, g, q, u, v, left[u]);
  }

  /** The inner loop of _utstring_findR. */
  method FallBackInR(h: string, p: string, table: array<int>, i0: nat, j: nat,
                     ghost g: string, ghost q: string, ghost left: seq<int>)
    returns (i: int)
    requires p != "" && Mirror(h, g) && Mirror(p, q) && i0 < |p| && j < |h| && Searching(h, p, g, q, i0, j)
    requires IsTable(q, left, |p| + 1) && MirrorTable(table[..], left, |p|, 0)
    ensures 0 <= i <= |p| && Searching(h, p, g, q, i, j) && (i < CInt(|p|) ==> p[i] == h[j])
  {
    i := i0;
    IntLength(p);
    while i < CInt(|p|) && p[i] != h[j]
      invariant 0 <= i <= |p| && Searching(h, p, g, q, i, j)
      decreases |p| - i
    {
      StepBack(h, p, g, q, table[..], left, i, j);
      i := table[i + 1];
    }
  }

  lemma IntLength(p: string)
    ensures CInt(|p|) <= |p|
  {
  }

  lemma MirrorAt(p: string, q: string, i: nat, u: nat)
    requires Mirror(p, q) && i < |p| && u == |p| - 1 - i
    ensures q[u] == p[i]
  {
  }

  lemma StepIn(h: string, p: string, g: string, q: string, i: nat, j: nat)
    requires p != "" && Mirror(h, g) && Mirror(p, q) && i <= |p| && j < |h| && Searching(h, p, g, q, i, j)
    requires i < CInt(|p|) ==> p[i] == h[j]
    ensures Searching(h, p, g, q, i - 1, j - 1)
  {
    var u, v := |p| - 1 - i, |h| - 1 - j;
    MirrorAt(h, g, j, v);
    if u >= 0 { MirrorAt(p, q, i, u); }
    StepR(h, p, g, q, u, v);
  }

  /** One turn of the loop of _utstring_findR. */
  method TurnR(h: string, p: string, table: array<int>, i0: nat, j0: nat,
               ghost g: string, ghost q: string, ghost left: seq<int>)
    returns (i: int, j: int)
    requires p != "" && Mirror(h, g) && Mirror(p, q) && i0 < |p| && j0 < |h| && Searching(h, p, g, q, i0, j0)
    requires IsTable(q, left, |p| + 1) && MirrorTable(table[..], left, |p|, 0)
    ensures -1 <= i < |p| && j == j0 - 1 && Searching(h, p, g, q, i, j)
  {
    j := j0;
    i := FallBackInR(h, p, table, i0, j, g, q, left);
    StepIn(h, p, g, q, i, j);
    i := i - 1;
    j := j - 1;
  }

  /** _utstring_findR */
  method FindInR(h: string, p: string, table: array<int>, ghost g: string, ghost q: string, ghost left: seq<int>)
    returns (r: int)
    requires p != "" && Mirror(h, g) && Mirror(p, q)
    requires IsTable(q, left, |p| + 1) && MirrorTable(table[..], left, |p|, 0)
    ensures LastOf(h, p, r)
  {
    var j := |h| - 1;
    var i := |p| - 1;
    StartR(h, p, g, q);
    while j >= 0 && j >= i
      invariant 0 <= i < |p| && j < |h| && Searching(h, p, g, q, i, j)
      decreases j + 1
    {
      i, j := TurnR(h, p, table, i, j, g, q, left);
      if i < 0 {
        FoundLast(h, p, g, q, j);
        return j + 1;
      }
    }
    NotFoundR(h, p, g, q, i, j);
    r := -1;
  }

  /** A needle of 2^31 characters, none of which is compared, is reported where it does not occur. */
  method WrongOccurrence() returns (h: string, p: string, r: int)
    ensures |p| == 0x8000_0000 && r == 0 && forall s :: !Occurs(h, p, s)
  {
    h, p := seq(0x8000_0000, k => 'b'), seq(0x8000_0000, k => 'a');
    var table := new int[|p| + 1];
    ghost var left := BuildTableR(p, table, p);
    r := FindInR(h, p, table, h, p, left);
    assert forall s :: Occurs(h, p, s) ==> p[0] == h[s + 0];
  }

  // ---- exactly when the searches are right ----

  /** What a search from the left is for. */
  ghost predicate IsFirst(h: string, p: string, r: int) {
    if r >= 0 then Occurs(h, p, r) && forall s | Occurs(h, p, s) :: r <= s
    else r == -1 && forall s :: !Occurs(h, p, s)
  }

  function Other(c: char): (d: char)
    ensures d != c
  {
    if c == 'a' then 'b' else 'a'
  }

  /** p behind as many characters as m leaves room for, none of which begins an occurrence. */
  function AtEnd(p: string, m: nat): (h: string)
    requires 0 < |p| <= m
    ensures |h| == m && Occurs(h, p, m - |p|)
  {
    seq(m, k requires 0 <= k < m => if k < m - |p| then Other(p[0]) else p[k - (m - |p|)])
  }

  lemma Differs(h: string, p: string, s: nat, k: nat)
    requires k < |p| && (s + k < |h| ==> p[k] != h[s + k])
    ensures !Occurs(h, p, s)
  {
    var i := s + k;
    assert i < |h| ==> h[i] != p[k];
  }

  lemma OnlyAtEnd(p: string, m: nat)
    requires 0 < |p| <= m
    ensures forall s | Occurs(AtEnd(p, m), p, s) :: s == m - |p|
  {
    forall s: nat | s < m - |p| ensures !Occurs(AtEnd(p, m), p, s) {
      assert AtEnd(p, m)[s] == Other(p[0]);
      Differs(AtEnd(p, m), p, s, 0);
    }
  }

  /** Where the needle is too long to be compared whole, or the text to be read whole, there is a wrong result. */
  lemma WrongFirst(p: string, m: nat) returns (h: string, r: int)
    requires 0 < |p| <= m && m >= 0x8000_0000
    ensures |h| == m && FirstOf(h, p, r) && !IsFirst(h, p, r)
  {
    if CInt(|p|) <= 0 < CInt(m) {
      h, r := seq(m, k => Other(p[0])), 1;
      Differs(h, p, 1, 0);
    } else if |p| < 0x8000_0000 || |Cut(p)| > CInt(m) {
      h, r := AtEnd(p, m), -1;
      OnlyAtEnd(p, m);
    } else {
      h := CutAtStart(p, m);
      r := 0;
    }
  }

  lemma CutAtStart(p: string, m: nat) returns (h: string)
    requires 0x8000_0000 <= |p| <= m && CInt(|p|) > 0
    ensures |h| == m && Occurs(h, Cut(p), 0) && !Occurs(h, p, 0)
  {
    var n := |Cut(p)|;
    h := seq(m, k requires 0 <= k < m => if k < n then p[k] else Other(p[n]));
    assert n < |p| <= m && h[n] == Other(p[n]);
    Differs(h, p, 0, n);
  }

  /** On all texts of length m: exactly if the needle does not fit, or the text is shorter than 2^31. */
  lemma LeftExactly(p: string, m: nat)
    requires p != ""
    ensures (forall h, r | |h| == m && FirstOf(h, p, r) :: IsFirst(h, p, r)) <==> |p| > m || m < 0x8000_0000
  {
    if |p| <= m && m >= 0x8000_0000 {
      var h, r := WrongFirst(p, m);
    } else {
      forall h, r | |h| == m && FirstOf(h, p, r) ensures IsFirst(h, p, r) {
        if |p| <= m {
          FirstOfShort(h, p, r);
        }
      }
    }
  }

  lemma CutFits(h: string, p: string, a: nat)
    requires 0x8000_0000 <= |p| && a == |h| - |p| && forall k | 0 <= k < Compared(p) :: p[k] == h[a + k]
    ensures LastOf(h, p, a)
  {
    assert LastDiff(h, p, a, Compared(p)) == -1;
  }

  /** A text that ends like p but for its last character, which is not compared. */
  lemma WrongLast(p: string, m: nat) returns (h: string)
    requires 0x8000_0000 <= |p| <= m
    ensures |h| == m && LastOf(h, p, m - |p|) && !Occurs(h, p, m - |p|)
  {
    h := AtEnd(p, m)[m - 1 := Other(p[|p| - 1])];
    CutFits(h, p, m - |p|);
    Differs(h, p, m - |p|, |p| - 1);
  }

  /** On all texts of length m: exactly if the needle does not fit, or is shorter than 2^31. */
  lemma RightExactly(p: string, m: nat)
    requires p != ""
    ensures (forall h, r | |h| == m && LastOf(h, p, r) :: IsLast(h, p, r)) <==> |p| > m || |p| < 0x8000_0000
  {
    if 0x8000_0000 <= |p| <= m {
      var h := WrongLast(p, m);
      assert !IsLast(h, p, m - |p|);
    }
  }

  // ---- one-time searches in a UT_string ----

  /** UT_string: the text is the first i bytes of the buffer d. */
  class UTString {
    var d: array<char>
    var i: nat

    ghost predicate Valid()
      reads this
    {
      i <= d.Length
    }

    ghost function Text(): string
      reads this, d
      requires Valid()
    {
      d[..i]
    }

    /** A start position as the searches take it: negative ones count from the end of the text. */
    function Start(position: int): int
      reads this
    {
      if position < 0 then i + position else position
    }

    /**
      utstring_find: the first occurrence at or after the start, unless none ends before the haystack length
      as an `int`, which for texts shorter than 2^31 means unless there is none; `memory` says whether
      the table could be allocated.
     */
    method Find(position: int, needle: string, memory: bool) returns (r: int)
      requires Valid() && Start(position) >= 0
      ensures (needle == "" || !memory || Start(position) > i) ==> r == -1
      ensures needle != "" && memory && Start(position) <= i ==>
                FirstOf(Text()[Start(position)..], needle, if r == -1 then -1 else r - Start(position))
      ensures 0 < |needle| < 0x8000_0000 && memory ==> IsFirstWithin(Text(), needle, Start(position), r)
    {
      var start := position;
      if position < 0 {
        start := i + position;
      }
      var length := i - start;
      r := -1;
      if length >= |needle| && |needle| > 0 {
        if memory {
          var table := new int[|needle| + 1];
          BuildTable(needle, table);
          r := FindIn(d[start..start + length], needle, table);
          assert d[..i][start..] == d[start..start + length];
          FirstFrom(d[..i], needle, start, r);
          if r >= 0 {
            r := r + start;
          }
        }
      }
      if length < |needle| {
        TooShort(d[..i], needle, start);
      }
    }

    /** utstring_findR: the last occurrence that ends at or before the start, if the needle is shorter than 2^31. */
    method FindR(position: int, needle: string, memory: bool) returns (r: int)
      requires Valid() && Start(position) < i
      ensures (needle == "" || !memory) ==> r == -1
      ensures needle != "" && memory && Start(position) + 1 >= |needle| ==>
                LastOf(Text()[..Start(position) + 1], needle, r)
      ensures 0 < |needle| < 0x8000_0000 && memory ==>
                if r == -1 then forall s | Occurs(Text(), needle, s) :: Start(position) < s + |needle| - 1
                else
                  && Occurs(Text(), needle, r) && r + |needle| - 1 <= Start(position)
                  && forall s | Occurs(Text(), needle, s) && s + |needle| - 1 <= Start(position) :: s <= r
    {
      var start := position;
      if position < 0 {
        start := i + position;
      }
      var length := start + 1;
      r := -1;
      if length >= |needle| && |needle| > 0 {
        if memory {
          var table := new int[|needle| + 1];
          ghost var p, h := Reversed(needle), Reversed(d[..length]);
          ghost var left := BuildTableR(needle, table, p);
          r := FindInR(d[..length], needle, table, h, p, left);
          OccursUpTo(d[..i], needle, length);
          assert d[..i][..length] == d[..length];
        }
      }
    }
  }

  /** The first occurrence at or after start, or -1 if none ends within the length behind start as an `int`. */
  ghost predicate IsFirstWithin(h: string, p: string, start: nat, r: int) {
    if r == -1 then forall s | Occurs(h, p, s) && start <= s :: s + |p| - start > CInt(|h| - start)
    else
      && Occurs(h, p, r) && start <= r && r + |p| - start <= CInt(|h| - start)
      && forall s | Occurs(h, p, s) && start <= s :: r <= s
  }

  lemma FirstFrom(h: string, p: string, start: nat, r: int)
    requires start <= |h| && p != "" && FirstOf(h[start..], p, r)
    ensures r >= -1
    ensures |p| < 0x8000_0000 ==> IsFirstWithin(h, p, start, if r == -1 then -1 else r + start)
  {
    if |p| < 0x8000_0000 {
      FirstOfShort(h[start..], p, r);
      OccursFrom(h, p, start);
    }
  }

  lemma TooShort(h: string, p: string, start: nat)
    requires |h| - start < |p|
    ensures |p| < 0x8000_0000 ==> IsFirstWithin(h, p, start, -1)
    ensures start <= |h| && p != "" ==> FirstOf(h[start..], p, -1)
  {
  }

  ghost function Reversed(s: string): (r: string)
    ensures Mirror(s, r)
  {
    seq(|s|, k requires 0 <= k < |s| => s[|s| - 1 - k])
  }

  lemma OccursFrom(h: string, p: string, start: nat)
    requires start <= |h|
    ensures forall s :: Occurs(h[start..], p, s) <==> 0 <= s && Occurs(h, p, start + s)
    ensures forall s | start <= s && Occurs(h, p, s) :: Occurs(h[start..], p, s - start)
  {
    forall s ensures Occurs(h[start..], p, s) <==> 0 <= s && Occurs(h, p, start + s) {
    }
  }

  lemma OccursUpTo(h: string, p: string, n: nat)
    requires n <= |h|
    ensures forall s :: Occurs(h[..n], p, s) <==> s + |p| <= n && Occurs(h, p, s)
  {
  }
}
