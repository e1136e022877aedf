/**
  The bucket chains of uthash.h: HASH_ADD_TO_BKT, HASH_DEL_IN_BKT and HASH_FIND_IN_BKT on one chain,
  and what an array of chains must satisfy (the first half of HASH_FSCK).
 */
module HashBuckets {
  import opened HashBits
  import opened Seqs

  /** An element with its UT_hash_handle. `hashv` is the hash value its key was added under. */
  class Item {
    const key: string
    const hashv: nat
    var prev: Item?
    var next: Item?
    var hhPrev: Item?
    var hhNext: Item?

    constructor (key: string, hashv: nat)
      ensures this.key == key && this.hashv == hashv
    {
      this.key := key;
      this.hashv := hashv;
    }
  }

  datatype Bucket = Bucket(head: Item?, count: nat, expandMult: nat)

  function First(s: seq<Item>): Item? {
    if s == [] then null else s[0]
  }

  function Last(s: seq<Item>): Item? {
    if s == [] then null else s[|s| - 1]
  }

  /** hh_next leads from head through c, hh_prev leads back. */
  ghost predicate Chain(head: Item?, c: seq<Item>)
    reads c`hhNext, c`hhPrev
  {
    && head == First(c)
    && (forall i {:trigger c[i].hhNext} | 0 <= i < |c| :: c[i].hhNext == if i + 1 < |c| then c[i + 1] else null)
    && (forall i {:trigger c[i].hhPrev} | 0 <= i < |c| :: c[i].hhPrev == if i == 0 then null else c[i - 1])
  }

  /** HASH_TO_BKT */
  function BktOf(hashv: nat, numBuckets: nat): nat
    requires numBuckets > 0
  {
    BitAnd(hashv, numBuckets - 1)
  }

  /** Bucket b: its chain, its count, and nothing in it that hashes elsewhere. */
  ghost predicate BucketOk(bkt: Bucket, c: seq<Item>, b: nat, n: nat)
    requires n > 0
    reads c`hhNext, c`hhPrev
  {
    && Chain(bkt.head, c) && bkt.count == |c| && Distinct(c)
    && forall i | 0 <= i < |c| :: BktOf(c[i].hashv, n) == b
  }

  /** The links and count part of HASH_ADD_TO_BKT. */
  method AddToBkt(buckets: array<Bucket>, b: nat, add: Item, ghost c: seq<Item>)
    requires 0 < buckets.Length && b < buckets.Length && BucketOk(buckets[b], c, b, buckets.Length)
    requires add !in c && BktOf(add.hashv, buckets.Length) == b
    modifies buckets, add`hhNext, add`hhPrev, c`hhPrev
    ensures BucketOk(buckets[b], [add] + c, b, buckets.Length) && buckets[b].count == old(buckets[b].count) + 1
    ensures buckets[..] == old(buckets[..])[b := buckets[b]] && buckets[b].expandMult == old(buckets[b].expandMult)
  {
    buckets[b] := buckets[b].(count := buckets[b].count + 1);
    add.hhNext := buckets[b].head;
    add.hhPrev := null;
    if buckets[b].head != null {
      buckets[b].head.hhPrev := add;
    }
    buckets[b] := buckets[b].(head := add);
    ghost var t := [add] + c;
    assert forall i | 0 <= i < |t| :: t[i] == if i == 0 then add else c[i - 1];
  }

  /** HASH_DEL_IN_BKT */
  method DelInBkt(buckets: array<Bucket>, b: nat, del: Item, ghost c: seq<Item>, ghost k: nat)
    requires 0 < buckets.Length && b < buckets.Length && BucketOk(buckets[b], c, b, buckets.Length)
    requires k < |c| && c[k] == del
    modifies buckets, c`hhNext, c`hhPrev
    ensures BucketOk(buckets[b], c[..k] + c[k + 1..], b, buckets.Length)
    ensures buckets[..] == old(buckets[..])[b := buckets[b]] && buckets[b].expandMult == old(buckets[b].expandMult)
  {
    ghost var t := c[..k] + c[k + 1..];
    assert forall i | 0 <= i < |t| :: t[i] == if i < k then c[i] else c[i + 1];
    assert c[k].hhNext == if k + 1 < |c| then c[k + 1] else null;
    buckets[b] := buckets[b].(count := buckets[b].count - 1);
    if buckets[b].head == del {
      buckets[b] := buckets[b].(head := del.hhNext);
    }
    UnlinkHh(del, c, k);
  }

  /** Its last two steps, on the neighbours of the deleted item. */
  method UnlinkHh(del: Item, ghost c: seq<Item>, ghost k: nat)
    requires Chain(First(c), c) && Distinct(c) && k < |c| && c[k] == del
    modifies c`hhNext, c`hhPrev
    ensures Chain(First(c[..k] + c[k + 1..]), c[..k] + c[k + 1..])
  {
    ghost var t := c[..k] + c[k + 1..];
    assert forall i | 0 <= i < |t| :: t[i] == if i < k then c[i] else c[i + 1];
    assert c[k].hhPrev == (if k == 0 then null else c[k - 1]) && c[k].hhNext == if k + 1 < |c| then c[k + 1] else null;
    if del.hhPrev != null {
      del.hhPrev.hhNext := del.hhNext;
    }
    if del.hhNext != null {
      del.hhNext.hhPrev := del.hhPrev;
    }
  }

  /** HASH_FIND_IN_BKT: the first item of the chain with that hash value and key. */
  method FindInBkt(bkt: Bucket, key: string, hashv: nat, ghost c: seq<Item>) returns (out: Item?)
    requires Chain(bkt.head, c)
    ensures out == null ==> forall x | x in c :: !(x.hashv == hashv && x.key == key)
    ensures out != null ==>
              exists k: nat | k < |c| ::
                && out == c[k] && out.hashv == hashv && out.key == key
                && forall j | 0 <= j < k :: !(c[j].hashv == hashv && c[j].key == key)
  {
    out := bkt.head;
    ghost var i := 0;
    while out != null
      invariant i <= |c| && out == First(c[i..])
      invariant forall j | 0 <= j < i :: !(c[j].hashv == hashv && c[j].key == key)
      decreases |c| - i
    {
      if out.hashv == hashv && |out.key| == |key| {
        if out.key == key {
          assert out == c[i];
          break;
        }
      }
      assert out == c[i];
      out := out.hhNext;
      i := i + 1;
    }
  }
}
