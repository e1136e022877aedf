/**
  The growable buffer of sandbird.c as a byte sequence.

  Whether an allocation succeeds is left open, and `refused` remembers a failure. `copied` counts, for the proof,
  the bytes that reallocations have copied: never more than the capacity, so pushes cost constant time on average.
 */
module SbBuffer {
  import opened CStrings
  import opened HashBits

  const SB_ESUCCESS: int := 0
  const SB_EOUTOFMEM: int := -2

  /** The capacities pushing can lead to. */
  ghost predicate Grown(cap: nat) {
    cap == 0 || exists k: nat :: cap == Pow2(k)
  }

  lemma {:induction false} Pow2Gap(j: nat, k: nat)
    requires Pow2(j) < Pow2(k)
    ensures 2 * Pow2(j) <= Pow2(k)
  {
    if j > 0 && k > 0 {
      Pow2Gap(j - 1, k - 1);
    }
  }

  /** A strictly larger capacity is at least twice as large. */
  lemma GrownGap(small: nat, large: nat)
    requires Grown(small) && Grown(large) && small < large
    ensures 2 * small <= large
  {
    if small > 0 {
      var j: nat :| small == Pow2(j);
      var k: nat :| large == Pow2(k);
      Pow2Gap(j, k);
    }
  }

  class Buffer {
    var s: array<char>
    var len: nat
    var cap: nat
    ghost var copied: nat
    ghost var refused: bool // an allocation has been refused

    ghost predicate Valid()
      reads this
    {
      && len <= cap == s.Length
      && Grown(cap)
      && (copied < cap || copied == cap == 0)
    }

    ghost function Contents(): string
      reads this, s
      requires Valid()
    {
      s[..len]
    }

    /** sb_buffer_init */
    constructor ()
      ensures Valid() && fresh(s) && len == cap == 0 && Contents() == "" && !refused
    {
      len, cap, copied, refused := 0, 0, 0, false;
      s := new char[0];
    }

    /** sb_buffer_reserve, for the sizes it is called with. */
    method Reserve(n: nat) returns (err: int)
      requires Valid() && Grown(n)
      modifies this`s, this`cap, this`copied, this`refused
      ensures Valid() && Contents() == old(Contents()) && (s == old(s) || fresh(s))
      ensures (err == SB_ESUCCESS || err == SB_EOUTOFMEM) && (refused <==> old(refused) || err != SB_ESUCCESS)
      ensures err == SB_ESUCCESS ==> cap == if old(cap) >= n then old(cap) else n
      ensures err != SB_ESUCCESS ==> old(cap) < n && cap == old(cap)
      ensures copied == old(copied) + if err == SB_ESUCCESS && old(cap) < n then old(cap) else 0
    {
      if cap >= n {
        return SB_ESUCCESS;
      }
      var p := Realloc(n);
      if p == null {
        return SB_EOUTOFMEM;
      }
      GrownGap(cap, n);
      copied := copied + cap;
      s := p;
      cap := n;
      return SB_ESUCCESS;
    }

    /** realloc, which may fail. */
    method Realloc(n: nat) returns (p: array?<char>)
      requires Valid() && n >= cap
      modifies this`refused
      ensures p != null ==> fresh(p) && p.Length == n && p[..cap] == s[..cap]
      ensures refused <==> old(refused) || p == null
    {
      var ok: bool := *;
      if !ok {
        refused := true;
        return null;
      }
      p := new char[n];
      forall i | 0 <= i < cap {
        p[i] := s[i];
      }
      assert p[..cap] == s[..cap];
    }

    /** sb_buffer_push_char */
    method PushChar(chr: char) returns (err: int)
      requires Valid()
      modifies this, s
      ensures Valid() && (s == old(s) || fresh(s))
      ensures (err == SB_ESUCCESS || err == SB_EOUTOFMEM) && (refused <==> old(refused) || err != SB_ESUCCESS)
      ensures err != SB_ESUCCESS ==> old(len) == old(cap)
      ensures Contents() == if err == SB_ESUCCESS then old(Contents()) + [chr] else old(Contents())
      ensures old(cap) <= cap && (cap == old(cap) || cap < 2 * len)
    {
      if len == cap {
        Doubling(cap);
        err := Reserve(if cap == 0 then 1 else 2 * cap);
        if err != SB_ESUCCESS {
          return err;
        }
      }
      s[len] := chr;
      len := len + 1;
      return SB_ESUCCESS;
    }

    /** sb_buffer_push_str: all of it or nothing. From an empty buffer, fewer than 2 |p| bytes are copied on the way. */
    method PushStr(p: string) returns (err: int)
      requires Valid()
      modifies this, s
      ensures Valid() && (s == old(s) || fresh(s))
      ensures (err == SB_ESUCCESS || err == SB_EOUTOFMEM) && (refused <==> old(refused) || err != SB_ESUCCESS)
      ensures err != SB_ESUCCESS ==> old(len) + |p| > old(cap)
      ensures Contents() == if err == SB_ESUCCESS then old(Contents()) + p else old(Contents())
      ensures old(cap) <= cap && (err == SB_ESUCCESS ==> cap == old(cap) || cap < 2 * len)
      ensures old(cap) == 0 && err == SB_ESUCCESS && p != "" ==> copied < 2 * |p|
    {
      var origLen := len;
      var i := 0;
      while i < |p|
        invariant i <= |p| && Valid() && (s == old(s) || fresh(s))
        invariant Contents() == old(Contents()) + p[..i] && len == old(len) + i
        invariant old(cap) <= cap && (cap == old(cap) || cap < 2 * len) && refused == old(refused)
      {
        err := PushChar(p[i]);
        if err != SB_ESUCCESS {
          assert Contents()[..origLen] == old(Contents());
          len := origLen;
          return err;
        }
        i := i + 1;
      }
      assert p[..|p|] == p;
      return SB_ESUCCESS;
    }

    /** sb_buffer_null_terminate: the byte after the contents becomes NUL. */
    method NullTerminate() returns (err: int)
      requires Valid()
      modifies this, s
      ensures Valid() && (s == old(s) || fresh(s)) && Contents() == old(Contents())
      ensures (err == SB_ESUCCESS || err == SB_EOUTOFMEM) && (refused <==> old(refused) || err != SB_ESUCCESS)
      ensures if err == SB_ESUCCESS then len < cap && s[len] == NUL else old(len) == old(cap)
    {
      err := PushChar(NUL);
      if err != SB_ESUCCESS {
        return err;
      }
      len := len - 1;
      assert Contents() == old(Contents());
      return SB_ESUCCESS;
    }

    /** sb_buffer_shift: drops the first n bytes. */
    method Shift(n: nat)
      requires Valid() && n <= len
      modifies this`len, s
      ensures Valid() && Contents() == old(Contents())[n..]
    {
      len := len - n;
      forall i | 0 <= i < len {
        s[i] := s[n + i];
      }
    }
  }

  lemma Doubling(cap: nat)
    requires Grown(cap)
    ensures Grown(if cap == 0 then 1 else 2 * cap)
  {
    if cap == 0 {
      assert Pow2(0) == 1;
    } else {
      var k: nat :| cap == Pow2(k);
      assert Pow2(k + 1) == 2 * cap;
    }
  }
}
