/**
  The bottom-up merge sort of utlist.h on sequences: what one pass does and what the passes amount to.

  `Sort` merges neighbouring runs of 1, 2, 4, ... elements until one merge covers the list. It is
  a stable sort for every comparison function that is a total preorder.
 */
module MergeSpec {
  import opened Seqs

  /** cmp is a total preorder in the sense of a C comparison function. */
  ghost predicate TotalPreorder<T(!new)>(cmp: (T, T) -> int) {
    && (forall a, b :: cmp(a, b) <= 0 || cmp(b, a) <= 0)
    && (forall a, b, c :: cmp(a, b) <= 0 && cmp(b, c) <= 0 ==> cmp(a, c) <= 0)
  }

  function Merge<T, V>(cmp: (V, V) -> int, key: T -> V, p: seq<T>, q: seq<T>): (r: seq<T>)
    ensures |r| == |p| + |q|
  {
    if p == [] then q
    else if q == [] then p
    else if cmp(key(p[0]), key(q[0])) <= 0 then [p[0]] + Merge(cmp, key, p[1..], q)
    else [q[0]] + Merge(cmp, key, p, q[1..])
  }

  /** One pass: runs of k elements merged two by two. */
  function Pass<T, V>(cmp: (V, V) -> int, key: T -> V, s: seq<T>, k: nat): (r: seq<T>)
    requires k > 0
    ensures |r| == |s|
    decreases |s|
  {
    if s == [] then []
    else
      var a, b := Min(k, |s|), Min(2 * k, |s|);
      Merge(cmp, key, s[..a], s[a..b]) + Pass(cmp, key, s[b..], k)
  }

  function SortFrom<T, V>(cmp: (V, V) -> int, key: T -> V, s: seq<T>, k: nat): (r: seq<T>)
    requires k > 0
    decreases if |s| > 2 * k then |s| - 2 * k else 0
  {
    var t := Pass(cmp, key, s, k);
    if |s| <= 2 * k then t else SortFrom(cmp, key, t, 2 * k)
  }

  function Sort<T, V>(cmp: (V, V) -> int, key: T -> V, s: seq<T>): seq<T> {
    if s == [] then [] else SortFrom(cmp, key, s, 1)
  }

  // ---- what it is for ----

  ghost predicate Sorted<T, V>(cmp: (V, V) -> int, key: T -> V, s: seq<T>) {
    forall i, j | 0 <= i < j < |s| :: cmp(key(s[i]), key(s[j])) <= 0
  }

  predicate Equivalent<V>(cmp: (V, V) -> int, a: V, b: V) {
    cmp(a, b) <= 0 && cmp(b, a) <= 0
  }

  /** The elements that compare equal to x, in their order. */
  function Class<T, V>(cmp: (V, V) -> int, key: T -> V, s: seq<T>, x: V): seq<T> {
    if s == [] then []
    else if Equivalent(cmp, key(s[0]), x) then [s[0]] + Class(cmp, key, s[1..], x)
    else Class(cmp, key, s[1..], x)
  }

  /** Of each element of s, the class of x has as many as s if neither of the two is greater, and otherwise none. */
  lemma {:induction false} ClassHas<T(!new), V>(cmp: (V, V) -> int, key: T -> V, s: seq<T>, x: V, e: T)
    ensures multiset(Class(cmp, key, s, x))[e] ==
            if cmp(key(e), x) > 0 || cmp(x, key(e)) > 0 then 0 else multiset(s)[e]
  {
    if s != [] {
      ClassHas(cmp, key, s[1..], x, e);
      assert s == [s[0]] + s[1..];
    }
  }

  /** Every run of k elements, counted from the front, is sorted. */
  ghost predicate RunsSorted<T, V>(cmp: (V, V) -> int, key: T -> V, s: seq<T>, k: nat)
    requires k > 0
    decreases |s|
  {
    s == [] || (Sorted(cmp, key, s[..Min(k, |s|)]) && RunsSorted(cmp, key, s[Min(k, |s|)..], k))
  }

  lemma {:induction false} ClassConcat<T, V>(cmp: (V, V) -> int, key: T -> V, a: seq<T>, b: seq<T>, x: V)
    ensures Class(cmp, key, a + b, x) == Class(cmp, key, a, x) + Class(cmp, key, b, x)
  {
    if a == [] {
      assert a + b == b;
      assert Class(cmp, key, a, x) + Class(cmp, key, b, x) == Class(cmp, key, b, x);
    } else {
      ClassConcat(cmp, key, a[1..], b, x);
      assert (a + b)[1..] == a[1..] + b && (a + b)[0] == a[0];
      var ca, cb := Class(cmp, key, a[1..], x), Class(cmp, key, b, x);
      assert [a[0]] + (ca + cb) == ([a[0]] + ca) + cb;
    }
  }

  /** What is strictly above an element is in no class with it. */
  lemma {:induction false} ClassAbove<T, V(!new)>(cmp: (V, V) -> int, key: T -> V, s: seq<T>, q: T, x: V)
    requires TotalPreorder(cmp) && forall i | 0 <= i < |s| :: cmp(key(s[i]), key(q)) > 0
    ensures Equivalent(cmp, key(q), x) ==> Class(cmp, key, s, x) == []
  {
    if s != [] {
      ClassAbove(cmp, key, s[1..], q, x);
      assert cmp(key(s[0]), key(q)) > 0;
    }
  }

  lemma {:induction false} MergeKeepsElements<T, V>(cmp: (V, V) -> int, key: T -> V, p: seq<T>, q: seq<T>)
    ensures multiset(Merge(cmp, key, p, q)) == multiset(p) + multiset(q)
    decreases |p| + |q|
  {
    if p != [] && q != [] {
      assert p == [p[0]] + p[1..] && q == [q[0]] + q[1..];
      if cmp(key(p[0]), key(q[0])) <= 0 {
        MergeKeepsElements(cmp, key, p[1..], q);
      } else {
        MergeKeepsElements(cmp, key, p, q[1..]);
      }
    }
  }

  lemma InMerge<T, V>(cmp: (V, V) -> int, key: T -> V, p: seq<T>, q: seq<T>, x: T)
    requires x in Merge(cmp, key, p, q)
    ensures x in p || x in q
  {
    MergeKeepsElements(cmp, key, p, q);
    assert x in multiset(Merge(cmp, key, p, q));
  }

  lemma {:induction false} MergeSorts<T, V(!new)>(cmp: (V, V) -> int, key: T -> V, p: seq<T>, q: seq<T>)
    requires TotalPreorder(cmp) && Sorted(cmp, key, p) && Sorted(cmp, key, q)
    ensures Sorted(cmp, key, Merge(cmp, key, p, q))
    decreases |p| + |q|
  {
    if p != [] && q != [] {
      var first, rest;
      if cmp(key(p[0]), key(q[0])) <= 0 {
        MergeSorts(cmp, key, p[1..], q);
        first, rest := p[0], Merge(cmp, key, p[1..], q);
        forall x | x in rest ensures cmp(key(first), key(x)) <= 0 {
          InMerge(cmp, key, p[1..], q, x);
        }
      } else {
        MergeSorts(cmp, key, p, q[1..]);
        first, rest := q[0], Merge(cmp, key, p, q[1..]);
        forall x | x in rest ensures cmp(key(first), key(x)) <= 0 {
          InMerge(cmp, key, p, q[1..], x);
        }
      }
      Prepend(cmp, key, first, rest);
    }
  }

  lemma Prepend<T, V>(cmp: (V, V) -> int, key: T -> V, first: T, rest: seq<T>)
    requires Sorted(cmp, key, rest) && forall x | x in rest :: cmp(key(first), key(x)) <= 0
    ensures Sorted(cmp, key, [first] + rest)
  {
  }

  /** Merging takes from the second run only what is strictly below the first run, so classes keep their order. */
  lemma {:induction false} MergeIsStable<T, V(!new)>(cmp: (V, V) -> int, key: T -> V, p: seq<T>, q: seq<T>, x: V)
    requires TotalPreorder(cmp) && Sorted(cmp, key, p)
    ensures Class(cmp, key, Merge(cmp, key, p, q), x) == Class(cmp, key, p, x) + Class(cmp, key, q, x)
    decreases |p| + |q|
  {
    if p == [] {
      assert Class(cmp, key, p, x) + Class(cmp, key, q, x) == Class(cmp, key, q, x);
    } else if q == [] {
      assert Class(cmp, key, p, x) + Class(cmp, key, q, x) == Class(cmp, key, p, x);
    } else if cmp(key(p[0]), key(q[0])) <= 0 {
      MergeIsStable(cmp, key, p[1..], q, x);
      ClassCons(cmp, key, p[0], Merge(cmp, key, p[1..], q), x);
      var cp, cq := Class(cmp, key, p[1..], x), Class(cmp, key, q, x);
      assert [p[0]] + (cp + cq) == ([p[0]] + cp) + cq;
    } else {
      MergeIsStable(cmp, key, p, q[1..], x);
      ClassCons(cmp, key, q[0], Merge(cmp, key, p, q[1..]), x);
      forall i | 0 <= i < |p| ensures cmp(key(p[i]), key(q[0])) > 0 {
        assert i > 0 ==> cmp(key(p[0]), key(p[i])) <= 0;
      }
      ClassAbove(cmp, key, p, q[0], x);
      var cp, cq := Class(cmp, key, p, x), Class(cmp, key, q[1..], x);
      if Equivalent(cmp, key(q[0]), x) {
        assert [q[0]] + (cp + cq) == cp + ([q[0]] + cq);
      }
    }
  }

  lemma ClassCons<T, V>(cmp: (V, V) -> int, key: T -> V, first: T, rest: seq<T>, x: V)
    ensures Class(cmp, key, [first] + rest, x) ==
            if Equivalent(cmp, key(first), x) then [first] + Class(cmp, key, rest, x) else Class(cmp, key, rest, x)
  {
    assert ([first] + rest)[1..] == rest;
  }

  lemma Cut3<T>(s: seq<T>, a: nat, b: nat)
    requires a <= b <= |s|
    ensures s == s[..b] + s[b..] && s[..b] == s[..a] + s[a..b]
  {
  }

  lemma {:induction false} PassKeepsElements<T, V>(cmp: (V, V) -> int, key: T -> V, s: seq<T>, k: nat)
    requires k > 0
    ensures multiset(Pass(cmp, key, s, k)) == multiset(s)
    decreases |s|
  {
    if s != [] {
      var a, b := Min(k, |s|), Min(2 * k, |s|);
      MergeKeepsElements(cmp, key, s[..a], s[a..b]);
      PassKeepsElements(cmp, key, s[b..], k);
      Cut3(s, a, b);
      assert multiset(s) == multiset(s[..b]) + multiset(s[b..]);
    }
  }

  /** The first two runs and what comes after them. */
  lemma TwoRuns<T, V>(cmp: (V, V) -> int, key: T -> V, s: seq<T>, k: nat)
    requires k > 0 && s != [] && RunsSorted(cmp, key, s, k)
    ensures var a, b := Min(k, |s|), Min(2 * k, |s|);
            Sorted(cmp, key, s[..a]) && Sorted(cmp, key, s[a..b]) && RunsSorted(cmp, key, s[b..], k)
  {
    var a, b := Min(k, |s|), Min(2 * k, |s|);
    var t := s[a..];
    if t == [] {
      assert s[b..] == [];
    } else {
      assert t[..Min(k, |t|)] == s[a..b] && t[Min(k, |t|)..] == s[b..];
    }
  }

  lemma {:induction false} PassDoublesRuns<T, V(!new)>(cmp: (V, V) -> int, key: T -> V, s: seq<T>, k: nat)
    requires k > 0 && TotalPreorder(cmp) && RunsSorted(cmp, key, s, k)
    ensures RunsSorted(cmp, key, Pass(cmp, key, s, k), 2 * k)
    decreases |s|
  {
    if s != [] {
      var a, b := Min(k, |s|), Min(2 * k, |s|);
      TwoRuns(cmp, key, s, k);
      MergeSorts(cmp, key, s[..a], s[a..b]);
      PassDoublesRuns(cmp, key, s[b..], k);
      var head, r := Merge(cmp, key, s[..a], s[a..b]), Pass(cmp, key, s, k);
      assert r[..b] == head && r[b..] == Pass(cmp, key, s[b..], k);
    }
  }

  lemma {:induction false} PassIsStable<T, V(!new)>(cmp: (V, V) -> int, key: T -> V, s: seq<T>, k: nat, x: V)
    requires k > 0 && TotalPreorder(cmp) && RunsSorted(cmp, key, s, k)
    ensures Class(cmp, key, Pass(cmp, key, s, k), x) == Class(cmp, key, s, x)
    decreases |s|
  {
    if s != [] {
      var a, b := Min(k, |s|), Min(2 * k, |s|);
      TwoRuns(cmp, key, s, k);
      MergeIsStable(cmp, key, s[..a], s[a..b], x);
      PassIsStable(cmp, key, s[b..], k, x);
      ClassConcat(cmp, key, Merge(cmp, key, s[..a], s[a..b]), Pass(cmp, key, s[b..], k), x);
      Cut3(s, a, b);
      ClassConcat(cmp, key, s[..a], s[a..b], x);
      ClassConcat(cmp, key, s[..b], s[b..], x);
    }
  }

  lemma {:induction false} SortFromCorrect<T, V(!new)>(cmp: (V, V) -> int, key: T -> V, s: seq<T>, k: nat)
    requires k > 0 && TotalPreorder(cmp) && RunsSorted(cmp, key, s, k)
    ensures var r := SortFrom(cmp, key, s, k);
            Sorted(cmp, key, r) && multiset(r) == multiset(s) &&
              forall x :: Class(cmp, key, r, x) == Class(cmp, key, s, x)
    decreases if |s| > 2 * k then |s| - 2 * k else 0
  {
    var t := Pass(cmp, key, s, k);
    PassKeepsElements(cmp, key, s, k);
    PassDoublesRuns(cmp, key, s, k);
    forall x ensures Class(cmp, key, t, x) == Class(cmp, key, s, x) {
      PassIsStable(cmp, key, s, k, x);
    }
    if |s| <= 2 * k {
      assert t != [] ==> t[..Min(2 * k, |t|)] == t;
    } else {
      SortFromCorrect(cmp, key, t, 2 * k);
    }
  }

  lemma {:induction false} SingletonRuns<T, V(!new)>(cmp: (V, V) -> int, key: T -> V, s: seq<T>)
    ensures RunsSorted(cmp, key, s, 1)
  {
    if s != [] {
      SingletonRuns(cmp, key, s[1..]);
    }
  }

  /** The result is sorted, has the same elements, and keeps the order of those that compare equal. */
  lemma SortIsStableSort<T, V(!new)>(cmp: (V, V) -> int, key: T -> V, s: seq<T>)
    requires TotalPreorder(cmp)
    ensures var r := Sort(cmp, key, s);
            Sorted(cmp, key, r) && multiset(r) == multiset(s) &&
              forall x :: Class(cmp, key, r, x) == Class(cmp, key, s, x)
  {
    if s != [] {
      SingletonRuns(cmp, key, s);
      SortFromCorrect(cmp, key, s, 1);
    }
  }
}
