/** Sequences without duplicates, and sequences of sequences laid end to end. */
module Seqs {
  function Min(a: int, b: int): int {
    if a <= b then a else b
  }

  ghost predicate Distinct<T>(s: seq<T>) {
    forall i, j | 0 <= i < j < |s| :: s[i] != s[j]
  }

  /** The parts one after the other. */
  function Joined<T>(parts: seq<seq<T>>): seq<T> {
    if parts == [] then [] else Joined(parts[..|parts| - 1]) + parts[|parts| - 1]
  }

  lemma {:induction false} JoinedAt<T>(parts: seq<seq<T>>, k: nat, j: nat)
    requires k < |parts| && j < |parts[k]|
    ensures |Joined(parts[..k])| + j < |Joined(parts)|
    ensures Joined(parts)[|Joined(parts[..k])| + j] == parts[k][j]
    decreases |parts|
  {
    var n := |parts| - 1;
    if k < n {
      JoinedAt(parts[..n], k, j);
      assert parts[..n][..k] == parts[..k];
    }
  }

  lemma {:induction false} JoinedFits<T>(parts: seq<seq<T>>, k: nat)
    requires k < |parts|
    ensures |Joined(parts[..k])| + |parts[k]| <= |Joined(parts)|
    decreases |parts|
  {
    var n := |parts| - 1;
    if k < n {
      JoinedFits(parts[..n], k);
      assert parts[..n][..k] == parts[..k];
    }
  }

  lemma {:induction false} JoinedPrefix<T>(a: seq<seq<T>>, b: seq<seq<T>>)
    requires a <= b
    ensures Joined(a) <= Joined(b)
    decreases |b|
  {
    if |a| < |b| {
      JoinedPrefix(a, b[..|b| - 1]);
    } else {
      assert a == b;
    }
  }
}
