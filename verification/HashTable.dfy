/**
  Arrays of bucket chains: adding to one, deleting from one, and redistributing all of
  them into twice as many, as HASH_EXPAND_BUCKETS does.

  `chains` are the ghost contents of the buckets and `all` the set of items they hold.
 */
module HashTable {
  import opened HashBits
  import opened HashBuckets
  import opened Seqs

  ghost predicate Within(s: seq<Item>, all: set<Item>) {
    forall i | 0 <= i < |s| :: s[i] in all
  }

  ghost predicate BucketAt(bs: seq<Bucket>, chains: seq<seq<Item>>, all: set<Item>, b: int)
    requires |chains| == |bs| && 0 <= b < |bs|
    reads all`hhNext, all`hhPrev
  {
    Within(chains[b], all) && BucketOk(bs[b], chains[b], b, |bs|)
  }

  /** Every bucket is well-formed, and every item is in the bucket its hash value selects. */
  ghost predicate BucketsOk(bs: seq<Bucket>, chains: seq<seq<Item>>, all: set<Item>)
    reads all`hhNext, all`hhPrev
  {
    && |chains| == |bs| > 0
    && (forall b | 0 <= b < |bs| :: BucketAt(bs, chains, all, b))
    && (forall x | x in all :: BktOf(x.hashv, |bs|) < |bs| && x in chains[BktOf(x.hashv, |bs|)])
  }

  /** The multipliers an expansion leaves: how many times the ideal length is in a chain that exceeds it. */
  predicate Mults(bs: seq<Bucket>, ideal: nat)
    requires ideal > 0
  {
    forall b | 0 <= b < |bs| :: bs[b].expandMult == if bs[b].count > ideal then bs[b].count / ideal else 0
  }

  lemma MultsAfter(bs: seq<Bucket>, bs': seq<Bucket>, b: nat, ideal: nat)
    requires ideal > 0 && Mults(bs, ideal) && b < |bs| == |bs'|
    requires bs' == bs[b := bs'[b]] && bs'[b].count == bs[b].count + 1
    requires bs'[b].expandMult == if bs'[b].count > ideal then bs'[b].count / ideal else bs[b].expandMult
    ensures Mults(bs', ideal)
  {
  }

  /** The sum of the bucket counts. */
  ghost function Total(chains: seq<seq<Item>>): nat {
    if chains == [] then 0 else |chains[0]| + Total(chains[1..])
  }

  lemma {:induction false} TotalUpdate(chains: seq<seq<Item>>, b: nat, c: seq<Item>)
    requires b < |chains|
    ensures Total(chains[b := c]) == Total(chains) - |chains[b]| + |c|
  {
    if b > 0 {
      TotalUpdate(chains[1..], b - 1, c);
      assert chains[b := c][1..] == chains[1..][b - 1 := c];
    } else {
      assert chains[b := c][1..] == chains[1..];
    }
  }

  /** HASH_TO_BKT and the links of HASH_ADD_TO_BKT. */
  method AddToChains(buckets: array<Bucket>, add: Item, ghost chains: seq<seq<Item>>, ghost all: set<Item>)
    returns (b: nat, ghost chains': seq<seq<Item>>)
    requires BucketsOk(buckets[..], chains, all) && add !in all
    requires BktOf(add.hashv, buckets.Length) < buckets.Length
    modifies buckets, all`hhPrev, add`hhNext, add`hhPrev
    ensures b == BktOf(add.hashv, buckets.Length) && chains' == chains[b := [add] + chains[b]]
    ensures buckets[b].count == old(buckets[b].count) + 1
    ensures BucketsOk(buckets[..], chains', all + {add}) && Total(chains') == Total(chains) + 1
    ensures buckets[..] == old(buckets[..])[b := buckets[b]] && buckets[b].expandMult == old(buckets[b].expandMult)
  {
    b := BktOf(add.hashv, buckets.Length);
    assert BucketAt(buckets[..], chains, all, b);
    AddToBkt(buckets, b, add, chains[b]);
    chains' := chains[b := [add] + chains[b]];
    TotalUpdate(chains, b, [add] + chains[b]);
    assert chains'[b][0] == add;
    forall j | 0 <= j < |chains| ensures BucketAt(buckets[..], chains', all + {add}, j) {
      assert old(BucketAt(buckets[..], chains, all, j));
      if j != b {
        assert forall i | 0 <= i < |chains[j]| :: chains[j][i] !in chains[b];
      }
    }
    forall x | x in all + {add} ensures x in chains'[BktOf(x.hashv, |chains|)] {
      if x != add && BktOf(x.hashv, |chains|) == b {
        var k :| 0 <= k < |chains[b]| && chains[b][k] == x;
        assert chains'[b][k + 1] == x;
      }
    }
  }

  /** HASH_TO_BKT and HASH_DEL_IN_BKT. */
  method DelInChains(buckets: array<Bucket>, del: Item, ghost chains: seq<seq<Item>>, ghost all: set<Item>)
    returns (ghost chains': seq<seq<Item>>)
    requires BucketsOk(buckets[..], chains, all) && del in all
    modifies buckets, all`hhPrev, all`hhNext
    ensures BucketsOk(buckets[..], chains', all - {del}) && Total(chains') == Total(chains) - 1
  {
    var b := BktOf(del.hashv, buckets.Length);
    assert BucketAt(buckets[..], chains, all, b);
    ghost var c := chains[b];
    ghost var k :| 0 <= k < |c| && c[k] == del;
    DelInBkt(buckets, b, del, c, k);
    ghost var c' := c[..k] + c[k + 1..];
    chains' := chains[b := c'];
    TotalUpdate(chains, b, c');
    StillThere(c, k, c');
    forall j | 0 <= j < |chains| ensures BucketAt(buckets[..], chains', all - {del}, j) {
      assert old(BucketAt(buckets[..], chains, all, j));
      if j != b {
        assert forall i | 0 <= i < |chains[j]| :: chains[j][i] !in c;
      }
    }
    forall x | x in all - {del} ensures x in chains'[BktOf(x.hashv, |chains|)] {
      assert BktOf(x.hashv, |chains|) == b ==> x in c && x != c[k];
    }
  }

  /** What is left of a chain without its element k. */
  lemma StillThere(c: seq<Item>, k: nat, c': seq<Item>)
    requires k < |c| && c' == c[..k] + c[k + 1..]
    ensures forall i | 0 <= i < |c'| :: c'[i] == if i < k then c[i] else c[i + 1]
    ensures forall x | x in c && x != c[k] :: x in c'
  {
    forall x | x in c && x != c[k] ensures x in c' {
      var j :| 0 <= j < |c| && c[j] == x;
      assert c'[if j < k then j else j - 1] == x;
    }
  }

  // ---- doubling the buckets ----

  /** The items whose position in their chain is beyond the ideal length. */
  ghost function Excess(chains: seq<seq<Item>>, ideal: nat): nat {
    if chains == [] then 0
    else (if |chains[0]| > ideal then |chains[0]| - ideal else 0) + Excess(chains[1..], ideal)
  }

  lemma {:induction false} ExcessGrow(chains: seq<seq<Item>>, b: nat, x: Item, ideal: nat)
    requires b < |chains|
    ensures Excess(chains[b := [x] + chains[b]], ideal) == Excess(chains, ideal) + if |chains[b]| >= ideal then 1 else 0
  {
    if b > 0 {
      ExcessGrow(chains[1..], b - 1, x, ideal);
      assert chains[b := [x] + chains[b]][1..] == chains[1..][b - 1 := [x] + chains[b]];
    } else {
      assert chains[b := [x] + chains[b]][1..] == chains[1..];
    }
  }

  /** One item moved to its new chain, as the inner loop of HASH_EXPAND_BUCKETS does. */
  method MoveItem(newBuckets: array<Bucket>, thh: Item, ideal: nat, nonideal: nat,
                  ghost chains: seq<seq<Item>>, ghost all: set<Item>)
    returns (nonideal': nat, ghost chains': seq<seq<Item>>)
    requires BucketsOk(newBuckets[..], chains, all) && thh !in all && ideal > 0
    requires BktOf(thh.hashv, newBuckets.Length) < newBuckets.Length && Mults(newBuckets[..], ideal)
    modifies newBuckets, all`hhPrev, thh`hhNext, thh`hhPrev
    ensures Mults(newBuckets[..], ideal)
    ensures BucketsOk(newBuckets[..], chains', all + {thh}) && Total(chains') == Total(chains) + 1
    ensures nonideal' - nonideal == Excess(chains', ideal) - Excess(chains, ideal)
  {
    var b;
    ghost var before := newBuckets[..];
    b, chains' := AddToChains(newBuckets, thh, chains, all);
    nonideal' := nonideal;
    ghost var bs := newBuckets[..];
    assert BucketAt(bs, chains', all + {thh}, b);
    if newBuckets[b].count > ideal {
      nonideal' := nonideal + 1;
      newBuckets[b] := newBuckets[b].(expandMult := newBuckets[b].count / ideal);
    }
    ExcessGrow(chains, b, thh, ideal);
    assert newBuckets[..] == bs[b := newBuckets[b]] == before[b := newBuckets[b]];
    MultsAfter(before, newBuckets[..], b, ideal);
    forall j | 0 <= j < |bs| ensures BucketAt(newBuckets[..], chains', all + {thh}, j) {
      assert BucketAt(bs, chains', all + {thh}, j);
    }
  }

  ghost function Elems(s: seq<Item>): set<Item> {
    set x | x in s
  }

  /** hh_next leads from thh through the rest r of an old chain. */
  ghost predicate Remaining(thh: Item?, r: seq<Item>)
    reads r`hhNext
  {
    && thh == First(r) && Distinct(r)
    && forall i {:trigger r[i].hhNext} | 0 <= i < |r| :: r[i].hhNext == if i + 1 < |r| then r[i + 1] else null
  }

  lemma RestOf(thh: Item, r: seq<Item>)
    requires Remaining(thh, r)
    ensures Remaining(thh.hhNext, r[1..]) && Elems(r) == Elems(r[1..]) + {thh} && thh !in r[1..]
  {
    var q := r[1..];
    assert forall i | 0 <= i < |q| :: q[i] == r[i + 1];
    assert r == [thh] + q;
  }

  /** The inner loop: all items of one old chain. `done` has been redistributed before. */
  method MoveChain(newBuckets: array<Bucket>, head: Item?, ideal: nat, nonideal: nat, ghost log2: nat,
                   ghost r0: seq<Item>, ghost chains0: seq<seq<Item>>, ghost done: set<Item>)
    returns (nonideal': nat, ghost chains: seq<seq<Item>>)
    requires newBuckets.Length == Pow2(log2) && BucketsOk(newBuckets[..], chains0, done) && ideal > 0
    requires Mults(newBuckets[..], ideal)
    requires Remaining(head, r0) && Elems(r0) !! done
    modifies newBuckets, done`hhPrev, Elems(r0)`hhNext, Elems(r0)`hhPrev
    ensures BucketsOk(newBuckets[..], chains, done + Elems(r0)) && Total(chains) == Total(chains0) + |r0|
    ensures Mults(newBuckets[..], ideal)
    ensures nonideal' - nonideal == Excess(chains, ideal) - Excess(chains0, ideal)
  {
    var thh := head;
    ghost var r := r0;
    ghost var now: set<Item> := done;
    nonideal', chains := nonideal, chains0;
    while thh != null
      invariant BucketsOk(newBuckets[..], chains, now) && Remaining(thh, r) && Mults(newBuckets[..], ideal)
      invariant Elems(r) !! now && now + Elems(r) == done + Elems(r0) && Elems(r) <= Elems(r0)
      invariant Total(chains) + |r| == Total(chains0) + |r0|
      invariant nonideal' - nonideal == Excess(chains, ideal) - Excess(chains0, ideal)
      decreases |r|
    {
      RestOf(thh, r);
      var nxt := thh.hhNext;
      ShiftAndMask(thh.hashv, log2);
      assert thh in Elems(r0) && forall x | x in now :: x in done || x in Elems(r0);
      nonideal', chains := MoveItem(newBuckets, thh, ideal, nonideal', chains, now);
      now := now + {thh};
      r := r[1..];
      thh := nxt;
    }
    assert Elems(r) == {};
    assert now == done + Elems(r0);
  }

  lemma {:induction false} TotalSnoc(chains: seq<seq<Item>>, i: nat)
    requires i < |chains|
    ensures Total(chains[..i + 1]) == Total(chains[..i]) + |chains[i]|
  {
    if i > 0 {
      TotalSnoc(chains[1..], i - 1);
      assert chains[..i + 1][1..] == chains[1..][..i] && chains[..i][1..] == chains[1..][..i - 1];
    } else {
      assert chains[..1][1..] == [] && chains[..0] == [];
    }
  }

  lemma {:induction false} EmptyChains(chains: seq<seq<Item>>, ideal: nat)
    requires forall b | 0 <= b < |chains| :: chains[b] == []
    ensures Total(chains) == 0 && Excess(chains, ideal) == 0
  {
    if chains != [] {
      EmptyChains(chains[1..], ideal);
    }
  }

  /** The items of the first i of n buckets. */
  ghost function Below(all: set<Item>, i: nat, n: nat): set<Item>
    requires n > 0
  {
    set x | x in all && BktOf(x.hashv, n) < i
  }

  /** The part of BucketsOk that does not depend on links. */
  ghost predicate Hashed(chains: seq<seq<Item>>, all: set<Item>) {
    && |chains| > 0
    && (forall b, x | 0 <= b < |chains| && x in chains[b] :: x in all && BktOf(x.hashv, |chains|) == b)
    && (forall x | x in all :: BktOf(x.hashv, |chains|) < |chains| && x in chains[BktOf(x.hashv, |chains|)])
  }

  lemma BelowNext(chains: seq<seq<Item>>, all: set<Item>, i: nat)
    requires Hashed(chains, all) && i < |chains|
    ensures Below(all, i + 1, |chains|) == Below(all, i, |chains|) + Elems(chains[i])
    ensures Elems(chains[i]) !! Below(all, i, |chains|) && Elems(chains[i]) <= all
  {
  }

  /** What is left of the old buckets from number i on. */
  ghost predicate OldBuckets(bs: seq<Bucket>, chains: seq<seq<Item>>, all: set<Item>, i: nat)
    reads all`hhNext
  {
    |chains| == |bs| && forall j | i <= j < |bs| :: Within(chains[j], all) && Remaining(bs[j].head, chains[j])
  }

  /** One turn of the outer loop. */
  method MoveNth(buckets: array<Bucket>, newBuckets: array<Bucket>, i: nat, ideal: nat, nonideal: nat, ghost log2: nat,
                 ghost chains0: seq<seq<Item>>, ghost chains: seq<seq<Item>>, ghost all: set<Item>)
    returns (nonideal': nat, ghost chains': seq<seq<Item>>)
    requires buckets != newBuckets && i < buckets.Length == |chains0| && Hashed(chains0, all)
    requires newBuckets.Length == Pow2(log2) && ideal > 0 && Mults(newBuckets[..], ideal)
    requires BucketsOk(newBuckets[..], chains, Below(all, i, buckets.Length))
    requires OldBuckets(buckets[..], chains0, all, i)
    modifies newBuckets, all`hhNext, all`hhPrev
    ensures BucketsOk(newBuckets[..], chains', Below(all, i + 1, buckets.Length)) && Mults(newBuckets[..], ideal)
    ensures OldBuckets(buckets[..], chains0, all, i + 1)
    ensures Total(chains') == Total(chains) + |chains0[i]|
    ensures nonideal' - nonideal == Excess(chains', ideal) - Excess(chains, ideal)
  {
    BelowNext(chains0, all, i);
    nonideal', chains' :=
      MoveChain(newBuckets, buckets[i].head, ideal, nonideal, log2, chains0[i], chains, Below(all, i, buckets.Length));
    ghost var bs := buckets[..];
    forall j | i + 1 <= j < |bs| ensures Within(chains0[j], all) && Remaining(bs[j].head, chains0[j]) {
      assert old(Remaining(bs[j].head, chains0[j]));
      assert forall k | 0 <= k < |chains0[j]| :: chains0[j][k] !in chains0[i];
      assert forall k | 0 <= k < |chains0[j]| :: chains0[j][k].hhNext == old(chains0[j][k].hhNext);
    }
  }

  lemma OldStart(bs: seq<Bucket>, chains: seq<seq<Item>>, all: set<Item>)
    requires BucketsOk(bs, chains, all)
    ensures Hashed(chains, all) && OldBuckets(bs, chains, all, 0)
    ensures Below(all, 0, |bs|) == {} && Below(all, |bs|, |bs|) == all && Total(chains[..0]) == 0
  {
    forall i | 0 <= i < |bs| ensures Within(chains[i], all) && Remaining(bs[i].head, chains[i]) {
      assert BucketAt(bs, chains, all, i);
    }
    forall b, x | 0 <= b < |chains| && x in chains[b] ensures x in all && BktOf(x.hashv, |chains|) == b {
      assert BucketAt(bs, chains, all, b);
    }
  }

  lemma NewStart(bs: seq<Bucket>, chains: seq<seq<Item>>)
    requires |bs| == |chains| > 0
    requires forall b | 0 <= b < |bs| :: bs[b] == Bucket(null, 0, 0) && chains[b] == []
    ensures BucketsOk(bs, chains, {})
  {
  }

  /** Zeroed buckets. */
  method NewBuckets(n: nat, ghost ideal: nat) returns (bkts: array<Bucket>, ghost chains: seq<seq<Item>>)
    requires n > 0
    ensures fresh(bkts) && bkts.Length == n && BucketsOk(bkts[..], chains, {})
    ensures ideal > 0 ==> Mults(bkts[..], ideal)
    ensures forall b | 0 <= b < n :: bkts[b].count == bkts[b].expandMult == 0
    ensures Total(chains) == 0 && Excess(chains, ideal) == 0
  {
    bkts := new Bucket[n](i => Bucket(null, 0, 0));
    chains := seq(n, b => []);
    EmptyChains(chains, ideal);
    NewStart(bkts[..], chains);
  }

  /** The loops of HASH_EXPAND_BUCKETS, into zeroed buckets. */
  method MoveAll(buckets: array<Bucket>, newBuckets: array<Bucket>, log2: nat, ideal: nat,
                 ghost chains0: seq<seq<Item>>, ghost empty: seq<seq<Item>>, ghost all: set<Item>)
    returns (nonideal: nat, ghost chains: seq<seq<Item>>)
    requires buckets != newBuckets && newBuckets.Length == Pow2(log2) && ideal > 0
    requires Hashed(chains0, all) && OldBuckets(buckets[..], chains0, all, 0)
    requires BucketsOk(newBuckets[..], empty, Below(all, 0, buckets.Length))
    requires Total(empty) == Excess(empty, ideal) == 0 && Mults(newBuckets[..], ideal)
    modifies newBuckets, all`hhNext, all`hhPrev
    ensures BucketsOk(newBuckets[..], chains, Below(all, buckets.Length, buckets.Length))
    ensures Mults(newBuckets[..], ideal)
    ensures Total(chains) == Total(chains0) && nonideal == Excess(chains, ideal)
  {
    nonideal, chains := 0, empty;
    assert chains0[..0] == [];
    var i := 0;
    while i < buckets.Length
      invariant i <= buckets.Length && Mults(newBuckets[..], ideal)
      invariant BucketsOk(newBuckets[..], chains, Below(all, i, buckets.Length))
      invariant OldBuckets(buckets[..], chains0, all, i)
      invariant Total(chains) == Total(chains0[..i]) && nonideal == Excess(chains, ideal)
    {
      nonideal, chains := MoveNth(buckets, newBuckets, i, ideal, nonideal, log2, chains0, chains, all);
      TotalSnoc(chains0, i);
      i := i + 1;
    }
    assert chains0[..buckets.Length] == chains0;
  }

  /** HASH_EXPAND_BUCKETS on the bucket arrays: every item to its bucket among 2^log2. */
  method Redistribute(buckets: array<Bucket>, log2: nat, n: nat, ideal: nat, ghost chains0: seq<seq<Item>>,
                      ghost all: set<Item>)
    returns (newBuckets: array<Bucket>, nonideal: nat, ghost chains: seq<seq<Item>>)
    requires BucketsOk(buckets[..], chains0, all) && n == Pow2(log2) && ideal > 0
    modifies all`hhNext, all`hhPrev
    ensures fresh(newBuckets) && newBuckets.Length == n && BucketsOk(newBuckets[..], chains, all)
    ensures Mults(newBuckets[..], ideal)
    ensures Total(chains) == Total(chains0) && nonideal == Excess(chains, ideal)
  {
    ghost var empty;
    newBuckets, empty := NewBuckets(n, ideal);
    OldStart(buckets[..], chains0, all);
    nonideal, chains := MoveAll(buckets, newBuckets, log2, ideal, chains0, empty, all);
  }
}
