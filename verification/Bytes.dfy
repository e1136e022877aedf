/** Bytes and the fixed-width integers stored in them (RPI/common.h). */
module Bytes {
  type Byte = b: int | 0 <= b < 256

  const UINT64: nat := 0x1_0000_0000_0000_0000
  const UINT64_MAX: nat := 0xFFFF_FFFF_FFFF_FFFF

  type Uint64 = n: nat | n < 0x1_0000_0000_0000_0000

  function LE16(s: seq<Byte>, i: nat): (n: nat)
    requires i + 2 <= |s|
    ensures n < 0x1_0000
  {
    s[i] as int + 0x100 * s[i + 1] as int
  }

  function LE32(s: seq<Byte>, i: nat): (n: nat)
    requires i + 4 <= |s|
    ensures n < 0x1_0000_0000
  {
    LE16(s, i) + 0x1_0000 * LE16(s, i + 2)
  }

  function BE32(s: seq<Byte>, i: nat): (n: nat)
    requires i + 4 <= |s|
    ensures n < 0x1_0000_0000
  {
    0x100_0000 * s[i] as int + 0x1_0000 * s[i + 1] as int + 0x100 * s[i + 2] as int + s[i + 3] as int
  }

  function BE64(s: seq<Byte>, i: nat): (n: nat)
    requires i + 8 <= |s|
    ensures n < 0x1_0000_0000_0000_0000
  {
    0x1_0000_0000 * BE32(s, i) + BE32(s, i + 4)
  }

  /** memcpy */
  method CopyInto(dst: array<Byte>, at: nat, src: array<Byte>, n: nat)
    requires dst != src && at + n <= dst.Length && n <= src.Length
    modifies dst
    ensures dst[..] == old(dst[..at]) + src[..n] + old(dst[at + n..])
  {
    var i := 0;
    while i < n
      invariant i <= n
      invariant dst[..] == old(dst[..at]) + src[..i] + old(dst[at + i..])
    {
      dst[at + i] := src[i];
      i := i + 1;
    }
  }

  /** The four bytes of n, least significant first, and the two. */
  function PutLE16(n: nat): (s: seq<Byte>)
    requires n < 0x1_0000
    ensures |s| == 2 && LE16(s, 0) == n
  {
    [n % 0x100, n / 0x100]
  }

  function PutLE32(n: nat): (s: seq<Byte>)
    requires n < 0x1_0000_0000
    ensures |s| == 4 && LE32(s, 0) == n
  {
    PutLE16(n % 0x1_0000) + PutLE16(n / 0x1_0000)
  }

  // ---- numbers by position ----

  /** The number whose digits to the base 256 the bytes are, the most significant first. */
  function BigEndian(s: seq<Byte>): nat {
    if s == [] then 0 else 256 * BigEndian(s[..|s| - 1]) + s[|s| - 1] as int
  }

  /** The same, the least significant first. */
  function LittleEndian(s: seq<Byte>): nat {
    if s == [] then 0 else s[0] as int + 256 * LittleEndian(s[1..])
  }

  lemma {:induction false} BigEndianJoin(a: seq<Byte>, b: seq<Byte>)
    requires |b| == 4
    ensures BigEndian(a + b) == 0x1_0000_0000 * BigEndian(a) + BigEndian(b)
  {
    var s := a + b;
    assert s[..|s| - 1] == a + b[..3] && (a + b[..3])[..|s| - 2] == a + b[..2];
    assert (a + b[..2])[..|s| - 3] == a + b[..1] && (a + b[..1])[..|s| - 4] == a;
    BigEndian4(b);
    assert BigEndian(a + b[..1]) == 256 * BigEndian(a) + b[0];
    assert BigEndian(a + b[..2]) == 256 * BigEndian(a + b[..1]) + b[1];
    assert BigEndian(a + b[..3]) == 256 * BigEndian(a + b[..2]) + b[2];
  }

  lemma BigEndian4(b: seq<Byte>)
    requires |b| == 4
    ensures BigEndian(b) == 256 * (256 * (256 * b[0] as int + b[1] as int) + b[2] as int) + b[3] as int
  {
    assert b[..3][..2] == b[..2] && b[..2][..1] == b[..1] && b[..1][..0] == [];
    assert BigEndian(b[..1]) == b[0];
    assert BigEndian(b[..2]) == 256 * BigEndian(b[..1]) + b[1];
    assert BigEndian(b[..3]) == 256 * BigEndian(b[..2]) + b[2];
  }

  lemma BE32IsBigEndian(s: seq<Byte>, i: nat)
    requires i + 4 <= |s|
    ensures BE32(s, i) == BigEndian(s[i..i + 4])
  {
    BigEndian4(s[i..i + 4]);
  }

  lemma BE64IsBigEndian(s: seq<Byte>, i: nat)
    requires i + 8 <= |s|
    ensures BE64(s, i) == BigEndian(s[i..i + 8])
  {
    BE32IsBigEndian(s, i);
    BE32IsBigEndian(s, i + 4);
    BigEndianJoin(s[i..i + 4], s[i + 4..i + 8]);
    assert s[i..i + 8] == s[i..i + 4] + s[i + 4..i + 8];
  }

  lemma LittleEndian2(b: seq<Byte>)
    requires |b| >= 2
    ensures LittleEndian(b) == b[0] as int + 256 * (b[1] as int + 256 * LittleEndian(b[2..]))
  {
    assert b[1..][1..] == b[2..];
  }

  lemma LE16IsLittleEndian(s: seq<Byte>, i: nat)
    requires i + 2 <= |s|
    ensures LE16(s, i) == LittleEndian(s[i..i + 2])
  {
    LittleEndian2(s[i..i + 2]);
  }

  lemma LE32IsLittleEndian(s: seq<Byte>, i: nat)
    requires i + 4 <= |s|
    ensures LE32(s, i) == LittleEndian(s[i..i + 4])
  {
    LittleEndian2(s[i..i + 4]);
    assert s[i..i + 4][2..] == s[i + 2..i + 4];
    LE16IsLittleEndian(s, i);
    LE16IsLittleEndian(s, i + 2);
    LittleEndian2(s[i..i + 2]);
  }

  /** The four bytes of n, the most significant first, and the eight. */
  function PutBE32(n: nat): (s: seq<Byte>)
    requires n < 0x1_0000_0000
    ensures |s| == 4
  {
    [n / 0x100_0000, n / 0x1_0000 % 0x100, n / 0x100 % 0x100, n % 0x100]
  }

  function PutBE64(n: nat): (s: seq<Byte>)
    requires n < 0x1_0000_0000_0000_0000
    ensures |s| == 8
  {
    PutBE32(n / 0x1_0000_0000) + PutBE32(n % 0x1_0000_0000)
  }

  lemma PutBE32Is(n: nat)
    requires n < 0x1_0000_0000
    ensures BigEndian(PutBE32(n)) == n
  {
    BigEndian4(PutBE32(n));
  }

  lemma PutBE64Is(n: nat)
    requires n < 0x1_0000_0000_0000_0000
    ensures BigEndian(PutBE64(n)) == n
  {
    PutBE32Is(n / 0x1_0000_0000);
    PutBE32Is(n % 0x1_0000_0000);
    BigEndianJoin(PutBE32(n / 0x1_0000_0000), PutBE32(n % 0x1_0000_0000));
  }
}
