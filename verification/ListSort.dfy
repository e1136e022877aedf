/**
  DL_SORT2 of utlist.h, in place: the links of the elements are rewritten by merging runs of growing length.

  The element sequences are ghost: `out` is what has been linked behind the new head, `p` the rest of the first run,
  `q` everything from the second run on. What the loop does to them is the sort of module MergeSpec.
 */
module ListSort {
  import opened MergeSpec
  import opened Seqs
  import opened DList

  ghost predicate Apart<T>(a: seq<T>, b: seq<T>) {
    forall i, j | 0 <= i < |a| && 0 <= j < |b| :: a[i] != b[j]
  }

  ghost predicate Within<T>(s: seq<T>, all: set<T>) {
    forall i | 0 <= i < |s| :: s[i] in all
  }

  function First<V>(s: seq<Elt<V>>): Elt?<V> {
    if s == [] then null else s[0]
  }

  function Last<V>(s: seq<Elt<V>>): Elt?<V> {
    if s == [] then null else s[|s| - 1]
  }

  /** The output so far: linked both ways, except that nothing is said of where the last element leads. */
  ghost predicate Output<V>(out: seq<Elt<V>>)
    reads out
  {
    && Distinct(out)
    && (forall i {:trigger out[i].next} | 0 <= i < |out| - 1 :: out[i].next == out[i + 1])
    && Back(out, null)
  }

  /** What is still to be output, and that none of it has been. */
  ghost predicate Pending<V>(out: seq<Elt<V>>, p: seq<Elt<V>>, q: seq<Elt<V>>)
    reads p, q
  {
    && Distinct(p) && Distinct(q) && Apart(p, q) && Apart(out, p) && Apart(out, q)
    && (forall i {:trigger p[i].next} | 0 <= i < |p| - 1 :: p[i].next == p[i + 1])
    && Chain(q, null)
  }

  /** Links e behind the output. */
  method Emit<V>(list: Elt?<V>, tail: Elt?<V>, e: Elt<V>, ghost out: seq<Elt<V>>, ghost p: seq<Elt<V>>,
                 ghost q: seq<Elt<V>>)
    returns (list': Elt?<V>, tail': Elt<V>)
    requires Output(out) && list == First(out) && tail == Last(out) && e !in out
    requires Pending(out + [e], p, q)
    modifies out`next, e`prev
    ensures Output(out + [e]) && list' == First(out + [e]) && tail' == e
    ensures Pending(out + [e], p, q)
  {
    list' := list;
    if tail != null {
      tail.next := e;
    } else {
      list' := e;
    }
    e.prev := tail;
    tail' := e;
    ghost var t := out + [e];
    assert forall i | 0 <= i < |t| :: t[i] == if i < |out| then out[i] else e;
  }

  /** The loop that counts off the first run; q is where the second run starts. */
  method CountRun<V>(p: Elt<V>, insize: nat, ghost s: seq<Elt<V>>) returns (q: Elt?<V>, psize: nat)
    requires insize > 0 && s != [] && Chain(s, null) && p == s[0]
    ensures psize == Min(insize, |s|) && q == First(s[psize..])
  {
    q := p;
    psize := 0;
    var i := 0;
    while i < insize
      invariant i <= insize && psize == i < |s| && q == s[i]
    {
      psize := psize + 1;
      q := q.next;
      if q == null {
        break;
      }
      i := i + 1;
    }
  }

  lemma TakeFirst<V>(out: seq<Elt<V>>, p: seq<Elt<V>>, q: seq<Elt<V>>)
    requires Pending(out, p, q) && p != []
    ensures p[0] !in out && Pending(out + [p[0]], p[1..], q)
    ensures |p| > 1 ==> p[0].next == p[1]
  {
  }

  lemma TakeSecond<V>(out: seq<Elt<V>>, p: seq<Elt<V>>, q: seq<Elt<V>>)
    requires Pending(out, p, q) && q != []
    ensures q[0] !in out && q[0].next == First(q[1..]) && Pending(out + [q[0]], p, q[1..])
  {
    var q' := q[1..];
    assert forall i | 0 <= i < |q'| :: q'[i] == q[i + 1];
  }

  function Data<V>(e: Elt<V>): V {
    e.data
  }

  /** What remains to be merged: the rest of the first run and the next qsize elements. */
  function Rest<V>(cmp: (V, V) -> int, p: seq<Elt<V>>, q: seq<Elt<V>>, qsize: nat): seq<Elt<V>> {
    Merge(cmp, Data, p, q[..Min(qsize, |q|)])
  }

  /** Taking from the first run. */
  lemma RestFirst<V>(cmp: (V, V) -> int, p: seq<Elt<V>>, q: seq<Elt<V>>, qsize: nat)
    requires p != [] && (qsize == 0 || q == [] || cmp(p[0].data, q[0].data) <= 0)
    ensures Rest(cmp, p, q, qsize) == [p[0]] + Rest(cmp, p[1..], q, qsize)
  {
  }

  /** Taking from the second run. */
  lemma RestSecond<V>(cmp: (V, V) -> int, p: seq<Elt<V>>, q: seq<Elt<V>>, qsize: nat)
    requires q != [] && qsize > 0 && (p == [] || cmp(p[0].data, q[0].data) > 0)
    ensures Rest(cmp, p, q, qsize) == [q[0]] + Rest(cmp, p, q[1..], qsize - 1)
    ensures q[Min(qsize, |q|)..] == q[1..][Min(qsize - 1, |q| - 1)..]
  {
    assert q[..Min(qsize, |q|)][1..] == q[1..][..Min(qsize - 1, |q| - 1)];
  }

  /** The choice of the next element, which advances the cursor of its run. */
  method TakeOne<V>(p: Elt?<V>, psize: nat, q: Elt?<V>, qsize: nat, cmp: (V, V) -> int,
                    ghost out: seq<Elt<V>>, ghost pr: seq<Elt<V>>, ghost qr: seq<Elt<V>>)
    returns (e: Elt<V>, p': Elt?<V>, psize': nat, q': Elt?<V>, qsize': nat, ghost pr': seq<Elt<V>>,
             ghost qr': seq<Elt<V>>)
    requires Pending(out, pr, qr) && psize == |pr| && (psize > 0 ==> p == pr[0]) && q == First(qr)
    requires psize > 0 || (qsize > 0 && q != null)
    ensures e !in out && (e in pr || e in qr) && Pending(out + [e], pr', qr')
    ensures psize' == |pr'| && (psize' > 0 ==> p' == pr'[0]) && q' == First(qr')
    ensures Rest(cmp, pr, qr, qsize) == [e] + Rest(cmp, pr', qr', qsize')
    ensures qr[Min(qsize, |qr|)..] == qr'[Min(qsize', |qr'|)..]
    ensures |pr'| + |qr'| == |pr| + |qr| - 1
    ensures forall all | Within(pr, all) && Within(qr, all) :: e in all && Within(pr', all) && Within(qr', all)
  {
    e, p', psize', q', qsize', pr', qr' := if psize == 0 then q else p, p, psize, q, qsize, pr, qr;
    var second: bool;
    if psize == 0 {
      second := true;
    } else if qsize == 0 || q == null {
      second := false;
    } else if cmp(p.data, q.data) <= 0 {
      second := false;
    } else {
      second := true;
    }
    if second {
      RestSecond(cmp, pr, qr, qsize);
      TakeSecond(out, pr, qr);
      e := q;
      q' := q.next;
      qsize' := qsize - 1;
      qr' := qr[1..];
    } else {
      RestFirst(cmp, pr, qr, qsize);
      TakeFirst(out, pr, qr);
      e := p;
      p' := p.next;
      psize' := psize - 1;
      pr' := pr[1..];
    }
  }

  /** The loop that merges two runs. */
  method MergeRuns<V>(list0: Elt?<V>, tail0: Elt?<V>, p0: Elt<V>, psize0: nat, q0: Elt?<V>, qsize0: nat,
                      cmp: (V, V) -> int,
                      ghost out0: seq<Elt<V>>, ghost pr0: seq<Elt<V>>, ghost qr0: seq<Elt<V>>, ghost all: set<Elt<V>>)
    returns (list: Elt?<V>, tail: Elt?<V>, q: Elt?<V>, ghost out: seq<Elt<V>>, ghost qr: seq<Elt<V>>)
    requires Output(out0) && list0 == First(out0) && tail0 == Last(out0) && Pending(out0, pr0, qr0)
    requires p0 == First(pr0) && psize0 == |pr0| && q0 == First(qr0)
    requires Within(out0, all) && Within(pr0, all) && Within(qr0, all)
    modifies all
    ensures out == out0 + Rest(cmp, pr0, qr0, qsize0) && qr == qr0[Min(qsize0, |qr0|)..]
    ensures Output(out) && list == First(out) && tail == Last(out) && Pending(out, [], qr) && q == First(qr)
    ensures Within(out, all)
  {
    list, tail, q, out, qr := list0, tail0, q0, out0, qr0;
    var p: Elt?<V>, psize, qsize := p0, psize0, qsize0;
    ghost var pr := pr0;
    while psize > 0 || (qsize > 0 && q != null)
      invariant Output(out) && list == First(out) && tail == Last(out) && Pending(out, pr, qr)
      invariant psize == |pr| && (psize > 0 ==> p == pr[0]) && q == First(qr)
      invariant out + Rest(cmp, pr, qr, qsize) == out0 + Rest(cmp, pr0, qr0, qsize0)
      invariant qr[Min(qsize, |qr|)..] == qr0[Min(qsize0, |qr0|)..]
      invariant Within(out, all) && Within(pr, all) && Within(qr, all)
      decreases |pr| + |qr|
    {
      var e: Elt<V>;
      ghost var rest := Rest(cmp, pr, qr, qsize);
      e, p, psize, q, qsize, pr, qr := TakeOne(p, psize, q, qsize, cmp, out, pr, qr);
      assert out + ([e] + rest[1..]) == (out + [e]) + rest[1..];
      list, tail := Emit(list, tail, e, out, pr, qr);
      out := out + [e];
    }
  }

  lemma SplitPending<V>(out: seq<Elt<V>>, s: seq<Elt<V>>, a: nat)
    requires Pending(out, [], s) && a <= |s|
    ensures Pending(out, s[..a], s[a..])
  {
    var q := s[a..];
    assert forall i | 0 <= i < |q| :: q[i] == s[a + i];
  }

  /** The second run, and what follows it. */
  lemma SecondRun<T>(s: seq<T>, a: nat, b: nat, k: nat)
    requires a == Min(k, |s|) && b == Min(2 * k, |s|)
    ensures s[a..][..Min(k, |s[a..]|)] == s[a..b] && s[a..][Min(k, |s[a..]|)..] == s[b..]
  {
  }

  lemma RestIsMerge<V>(cmp: (V, V) -> int, s: seq<Elt<V>>, k: nat, a: nat, b: nat)
    requires a == Min(k, |s|) && b == Min(2 * k, |s|)
    ensures Rest(cmp, s[..a], s[a..], k) == Merge(cmp, Data, s[..a], s[a..b])
    ensures |Rest(cmp, s[..a], s[a..], k)| == b
  {
    SecondRun(s, a, b, k);
  }

  lemma PassIsMerge<V>(cmp: (V, V) -> int, s: seq<Elt<V>>, k: nat, a: nat, b: nat)
    requires k > 0 && s != [] && a == Min(k, |s|) && b == Min(2 * k, |s|)
    ensures Pass(cmp, Data, s, k) == Merge(cmp, Data, s[..a], s[a..b]) + Pass(cmp, Data, s[b..], k)
  {
  }

  lemma JoinPass<V>(cmp: (V, V) -> int, out: seq<Elt<V>>, s: seq<Elt<V>>, k: nat, out': seq<Elt<V>>, s': seq<Elt<V>>)
    requires k > 0 && s != []
    requires var a := Min(k, |s|); out' == out + Rest(cmp, s[..a], s[a..], k) && s' == s[a..][Min(k, |s[a..]|)..]
    ensures out' + Pass(cmp, Data, s', k) == out + Pass(cmp, Data, s, k)
    ensures |out'| == |out| + Min(2 * k, |s|) && |out'| + |s'| == |out| + |s|
  {
    var a, b := Min(k, |s|), Min(2 * k, |s|);
    SecondRun(s, a, b, k);
    RestIsMerge(cmp, s, k, a, b);
    PassIsMerge(cmp, s, k, a, b);
    Assoc(out, Rest(cmp, s[..a], s[a..], k), Pass(cmp, Data, s', k));
  }

  lemma Assoc<T>(a: seq<T>, b: seq<T>, c: seq<T>)
    ensures a + (b + c) == (a + b) + c
  {
  }

  /** One merge of a pass: two runs counted off, merged behind the output. */
  method MergeNext<V>(list: Elt?<V>, tail: Elt?<V>, p: Elt<V>, insize: nat, cmp: (V, V) -> int,
                      ghost out: seq<Elt<V>>, ghost rem: seq<Elt<V>>, ghost all: set<Elt<V>>)
    returns (list': Elt?<V>, tail': Elt?<V>, p': Elt?<V>, ghost out': seq<Elt<V>>, ghost rem': seq<Elt<V>>)
    requires Output(out) && list == First(out) && tail == Last(out) && Pending(out, [], rem) && p == First(rem)
    requires insize > 0 && Within(out, all) && Within(rem, all)
    modifies all
    ensures Output(out') && list' == First(out') && tail' == Last(out') && Pending(out', [], rem') && p' == First(rem')
    ensures out' + Pass(cmp, Data, rem', insize) == out + Pass(cmp, Data, rem, insize)
    ensures Within(out', all) && Within(rem', all)
    ensures |out'| == |out| + Min(2 * insize, |rem|) && |out'| + |rem'| == |out| + |rem|
  {
    var q, psize := CountRun(p, insize, rem);
    SplitPending(out, rem, psize);
    list', tail', p', out', rem' :=
      MergeRuns(list, tail, p, psize, q, insize, cmp, out, rem[..psize], rem[psize..], all);
    JoinPass(cmp, out, rem, insize, out', rem');
  }

  /** The end of a pass: the head's `prev` becomes the tail, and the tail leads nowhere. */
  method CloseList<V>(first: Elt<V>, tail: Elt<V>, ghost t: seq<Elt<V>>) returns (list: Elt<V>)
    requires t != [] && Output(t) && first == First(t) && tail == Last(t)
    modifies first, tail
    ensures List(list, t)
  {
    first.prev := tail;
    tail.next := null;
    list := first;
  }

  lemma EmptyJoins<V>(cmp: (V, V) -> int, s: seq<Elt<V>>, k: nat)
    requires k > 0
    ensures [] + Pass(cmp, Data, s, k) == Pass(cmp, Data, s, k) && s + Pass(cmp, Data, [], k) == s
  {
  }

  /** How many merges there have been when `done` elements are merged in runs of k and `left` are not. */
  predicate Counted(nmerges: nat, done: nat, left: nat, k: nat) {
    && (nmerges == 0 <==> done == 0)
    && (nmerges == 1 ==> done <= 2 * k && (left > 0 ==> done == 2 * k))
    && (nmerges > 1 ==> done > 2 * k)
  }

  lemma CountedOn(nmerges: nat, done: nat, left: nat, done': nat, left': nat, k: nat)
    requires k > 0 && left > 0 && Counted(nmerges, done, left, k)
    requires done' == done + Min(2 * k, left) && done' + left' == done + left
    ensures Counted(nmerges + 1, done', left', k)
  {
  }

  /** One pass over the whole list, which leaves it a proper list again; nmerges tells whether one merge was enough. */
  method OnePass<V>(head: Elt<V>, insize: nat, cmp: (V, V) -> int, ghost s: seq<Elt<V>>, ghost all: set<Elt<V>>)
    returns (list: Elt<V>, nmerges: nat, ghost t: seq<Elt<V>>)
    requires insize > 0 && s != [] && List(head, s) && Within(s, all)
    modifies all
    ensures t == Pass(cmp, Data, s, insize) && t != [] && List(list, t) && Within(t, all)
    ensures nmerges <= 1 <==> |s| <= 2 * insize
  {
    var p: Elt?<V>, first: Elt?<V>, tail: Elt?<V> := head, null, null;
    ghost var rem := s;
    t, nmerges := [], 0;
    EmptyJoins(cmp, s, insize);
    while p != null
      invariant Output(t) && first == First(t) && tail == Last(t) && Pending(t, [], rem) && p == First(rem)
      invariant t + Pass(cmp, Data, rem, insize) == Pass(cmp, Data, s, insize)
      invariant Within(t, all) && Within(rem, all) && |t| + |rem| == |s|
      invariant Counted(nmerges, |t|, |rem|, insize)
      decreases |rem|
    {
      ghost var done, left := |t|, |rem|;
      nmerges := nmerges + 1;
      first, tail, p, t, rem := MergeNext(first, tail, p, insize, cmp, t, rem, all);
      CountedOn(nmerges - 1, done, left, |t|, |rem|, insize);
    }
    EmptyJoins(cmp, t, insize);
    list := CloseList(first, tail, t);
  }

  /** What one more pass leaves to be sorted. */
  lemma SortFromPass<V>(cmp: (V, V) -> int, s: seq<Elt<V>>, k: nat)
    requires k > 0
    ensures SortFrom(cmp, Data, s, k) ==
            if |s| <= 2 * k then Pass(cmp, Data, s, k) else SortFrom(cmp, Data, Pass(cmp, Data, s, k), k * 2)
  {
  }

  /** The loop over the passes. */
  method SortLoop<V>(head: Elt<V>, cmp: (V, V) -> int, ghost s: seq<Elt<V>>, ghost all: set<Elt<V>>)
    returns (list: Elt<V>)
    requires s != [] && List(head, s) && Within(s, all)
    modifies all
    ensures List(list, SortFrom(cmp, Data, s, 1))
  {
    list := head;
    var insize, looping := 1, true;
    ghost var t := s;
    while looping
      invariant insize > 0
      invariant t != [] && List(list, t) && Within(t, all)
      invariant (if looping then SortFrom(cmp, Data, t, insize) else t) == SortFrom(cmp, Data, s, 1)
      decreases looping, if |t| > 2 * insize then |t| - 2 * insize else 0
    {
      SortFromPass(cmp, t, insize);
      var nmerges;
      list, nmerges, t := OnePass(list, insize, cmp, t, all);
      if nmerges <= 1 {
        looping := false;
      }
      insize := insize * 2;
    }
  }

  /**
    DL_SORT2: the list is left with its elements in the order of the stable merge sort, properly
    linked. Every element of the list may be written, and nothing else is.
   */
  method DLSort<V(!new)>(head: Elt?<V>, cmp: (V, V) -> int, ghost s: seq<Elt<V>>) returns (list: Elt?<V>)
    requires List(head, s)
    modifies s
    ensures List(list, Sort(cmp, Data, s))
    ensures TotalPreorder(cmp) ==>
              var r := Sort(cmp, Data, s);
              && Sorted(cmp, Data, r) && multiset(r) == multiset(s)
              && forall x :: Class(cmp, Data, r, x) == Class(cmp, Data, s, x)
  {
    if TotalPreorder(cmp) {
      SortIsStableSort(cmp, Data, s);
    }
    list := head;
    if list != null {
      list := SortLoop(list, cmp, s, set e | e in s);
    }
  }
}
