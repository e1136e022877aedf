/**
  The hash table a user of uthash.h sees: the head pointer with its UT_hash_table, refining a finite map.

  `items` is the application order and `chains` the bucket contents; both are ghost. `Valid` is what
  HASH_FSCK checks, with distinct keys and every item in the bucket of its hash value.
 */
module UtHash {
  import opened HashBits
  import opened HashBuckets
  import opened HashTable
  import opened Seqs

  const HASH_INITIAL_NUM_BUCKETS: nat := 32
  const HASH_INITIAL_NUM_BUCKETS_LOG2: nat := 5
  const HASH_BKT_CAPACITY_THRESH: nat := 10

  /** next and prev link the items in application order. */
  ghost predicate AppOrder(head: Item?, tail: Item?, s: seq<Item>)
    reads s`next, s`prev
  {
    && head == First(s) && tail == Last(s) && Distinct(s)
    && (forall i {:trigger s[i].next} | 0 <= i < |s| :: s[i].next == if i + 1 < |s| then s[i + 1] else null)
    && (forall i {:trigger s[i].prev} | 0 <= i < |s| :: s[i].prev == if i == 0 then null else s[i - 1])
  }

  lemma InitialSize()
    ensures Pow2(HASH_INITIAL_NUM_BUCKETS_LOG2) == HASH_INITIAL_NUM_BUCKETS
  {
    assert Pow2(2) == 4;
  }

  ghost predicate DistinctKeys(s: seq<Item>) {
    forall i, j | 0 <= i < j < |s| :: s[i].key != s[j].key
  }

  /** HASH_APPEND_LIST */
  method AppendList(head: Item, tail: Item, add: Item, ghost s: seq<Item>)
    requires s != [] && AppOrder(head, tail, s) && add !in s
    modifies tail`next, add`next, add`prev
    ensures AppOrder(head, add, s + [add])
  {
    add.next := null;
    add.prev := tail;
    tail.next := add;
    ghost var t := s + [add];
    assert forall i | 0 <= i < |t| :: t[i] == if i < |s| then s[i] else add;
  }

  lemma RemovedEnds(s: seq<Item>, k: nat, t: seq<Item>)
    requires |s| > 1 && Distinct(s) && k < |s| && t == s[..k] + s[k + 1..]
    ensures Distinct(t)
    ensures First(t) == if k == 0 then s[1] else s[0]
    ensures Last(t) == if k == |s| - 1 then s[k - 1] else s[|s| - 1]
  {
    assert forall i | 0 <= i < |t| :: t[i] == if i < k then s[i] else s[i + 1];
  }

  /** The application-order part of HASH_DELETE_HH, for a table of more than one item. */
  method UnlinkApp(head: Item, tail: Item, del: Item, ghost s: seq<Item>, ghost k: nat)
    returns (head': Item, tail': Item)
    requires |s| > 1 && AppOrder(head, tail, s) && k < |s| && s[k] == del
    modifies s`next, s`prev
    ensures AppOrder(head', tail', s[..k] + s[k + 1..])
  {
    ghost var t := s[..k] + s[k + 1..];
    assert forall i | 0 <= i < |t| :: t[i] == if i < k then s[i] else s[i + 1];
    assert s[k].prev == (if k == 0 then null else s[k - 1]) && s[k].next == if k + 1 < |s| then s[k + 1] else null;
    RemovedEnds(s, k, t);
    head', tail' := head, tail;
    if del == tail {
      tail' := del.prev;
    }
    if del.prev != null {
      del.prev.next := del.next;
    } else {
      head' := del.next;
    }
    if del.next != null {
      del.next.prev := del.prev;
    }
  }

  /** The finite map a sequence of items stands for. */
  ghost function MapOf(s: seq<Item>): map<string, Item> {
    if s == [] then map[] else MapOf(s[..|s| - 1])[s[|s| - 1].key := s[|s| - 1]]
  }

  lemma {:induction false} MapOfSpec(s: seq<Item>)
    requires DistinctKeys(s)
    ensures forall x | x in s :: x.key in MapOf(s) && MapOf(s)[x.key] == x
    ensures forall k | k in MapOf(s) :: MapOf(s)[k] in s && MapOf(s)[k].key == k
  {
    if s != [] {
      MapOfSpec(s[..|s| - 1]);
    }
  }

  lemma MapOfAppend(s: seq<Item>, add: Item)
    ensures MapOf(s + [add]) == MapOf(s)[add.key := add]
  {
    assert (s + [add])[..|s|] == s;
  }

  lemma {:induction false} MapOfRemove(s: seq<Item>, k: nat)
    requires k < |s| && DistinctKeys(s)
    ensures MapOf(s[..k] + s[k + 1..]) == MapOf(s) - {s[k].key}
  {
    var t, init, last := s[..k] + s[k + 1..], s[..|s| - 1], s[|s| - 1];
    if k == |s| - 1 {
      assert t == init;
      KeyAbsent(init, last.key);
    } else {
      var t' := init[..k] + init[k + 1..];
      assert t == t' + [last];
      MapOfAppend(t', last);
      MapOfRemove(init, k);
    }
  }

  lemma {:induction false} KeyAbsent(s: seq<Item>, key: string)
    requires forall x | x in s :: x.key != key
    ensures key !in MapOf(s)
  {
    if s != [] {
      KeyAbsent(s[..|s| - 1], key);
    }
  }

  lemma KeysRemove(s: seq<Item>, k: nat)
    requires k < |s| && DistinctKeys(s)
    ensures DistinctKeys(s[..k] + s[k + 1..]) && forall x | x in s[..k] + s[k + 1..] :: x in s
  {
    var t := s[..k] + s[k + 1..];
    assert forall i | 0 <= i < |t| :: t[i] == if i < k then s[i] else s[i + 1];
  }

  // ---- runs of operations ----

  /** What a user does: look a key up and add an item under it if it is not there, or delete the one that is. */
  datatype Op = Put(item: Item) | Take(key: string)

  ghost predicate HasKey(s: seq<Item>, key: string) {
    exists x | x in s :: x.key == key
  }

  /** The items without the one under that key. */
  ghost function Dropped(s: seq<Item>, key: string): seq<Item> {
    if s == [] then [] else if s[0].key == key then s[1..] else [s[0]] + Dropped(s[1..], key)
  }

  /** The items in application order after one operation, and after a run of them. */
  ghost function Step(s: seq<Item>, op: Op): seq<Item> {
    match op
    case Put(item) => if HasKey(s, item.key) then s else s + [item]
    case Take(key) => Dropped(s, key)
  }

  ghost function Run(s: seq<Item>, ops: seq<Op>): seq<Item> {
    if ops == [] then s else Step(Run(s, ops[..|ops| - 1]), ops[|ops| - 1])
  }

  /** The map after one operation, and after a run of them. */
  function After(m: map<string, Item>, op: Op): map<string, Item> {
    match op
    case Put(item) => if item.key in m then m else m[item.key := item]
    case Take(key) => m - {key}
  }

  function AfterAll(m: map<string, Item>, ops: seq<Op>): map<string, Item> {
    if ops == [] then m else After(AfterAll(m, ops[..|ops| - 1]), ops[|ops| - 1])
  }

  lemma NextOp(s: seq<Item>, m: map<string, Item>, ops: seq<Op>, n: nat)
    requires n < |ops|
    ensures Run(s, ops[..n + 1]) == Step(Run(s, ops[..n]), ops[n])
    ensures AfterAll(m, ops[..n + 1]) == After(AfterAll(m, ops[..n]), ops[n])
  {
    assert ops[..n + 1][..n] == ops[..n];
  }

  lemma KeyIsThere(s: seq<Item>, key: string)
    requires DistinctKeys(s)
    ensures key in MapOf(s) <==> HasKey(s, key)
    ensures key in MapOf(s) ==> MapOf(s)[key] in s && MapOf(s)[key].key == key
  {
    MapOfSpec(s);
  }

  lemma {:induction false} DroppedAt(s: seq<Item>, k: nat)
    requires k < |s| && DistinctKeys(s)
    ensures Dropped(s, s[k].key) == s[..k] + s[k + 1..]
  {
    if k > 0 {
      DroppedAt(s[1..], k - 1);
      assert [s[0]] + (s[1..][..k - 1] + s[1..][k..]) == s[..k] + s[k + 1..];
    }
  }

  lemma Taken(s: seq<Item>, x: Item, all: set<Item>) returns (k: nat)
    requires x in s && DistinctKeys(s) && Within(s, all)
    ensures k < |s| && s[k] == x && Dropped(s, x.key) == s[..k] + s[k + 1..]
    ensures Within(s[..k] + s[k + 1..], all)
  {
    k :| k < |s| && s[k] == x;
    DroppedAt(s, k);
    KeysRemove(s, k);
  }

  lemma {:induction false} DroppedNone(s: seq<Item>, key: string)
    requires !HasKey(s, key)
    ensures Dropped(s, key) == s
  {
    if s != [] {
      assert s[0] in s;
      forall x | x in s[1..] ensures x.key != key { assert x in s; }
      DroppedNone(s[1..], key);
    }
  }

  class Hash {
    const hash: string -> nat
    var head: Item?
    var tail: Item?
    var buckets: array<Bucket>
    var numBuckets: nat
    var log2NumBuckets: nat
    var numItems: nat
    var idealChainMaxlen: nat
    var nonidealItems: nat
    var ineffExpands: nat
    var noexpand: bool
    ghost var items: seq<Item>
    ghost var chains: seq<seq<Item>>

    ghost predicate TableOk()
      reads this, buckets, items`hhNext, items`hhPrev
    {
      && numBuckets == buckets.Length == Pow2(log2NumBuckets)
      && BucketsOk(buckets[..], chains, Elems(items))
      && Total(chains) == numItems == |items|
    }

    /** One item more in the bucket of add makes ten there, or ten times one more than its multiplier says. */
    ghost predicate Crowded(add: Item)
      requires numBuckets > 0
      reads this, buckets
    {
      var b := BktOf(add.hashv, numBuckets);
      0 <= b < buckets.Length && !noexpand && buckets[b].count + 1 >= (buckets[b].expandMult + 1) * 10
    }

    ghost predicate KeysOk()
      reads this
    {
      DistinctKeys(items) && forall x | x in items :: x.hashv == hash(x.key)
    }

    ghost predicate Linked()
      reads this, buckets, items
    {
      if items == [] then head == null else head != null && AppOrder(head, tail, items) && TableOk()
    }

    ghost predicate Valid()
      reads this, buckets, items
    {
      KeysOk() && Linked()
    }

    /** The map the table stands for. */
    ghost function Contents(): map<string, Item>
      reads this
    {
      MapOf(items)
    }

    constructor (hash: string -> nat)
      ensures Valid() && items == [] && this.hash == hash && fresh(buckets)
    {
      this.hash := hash;
      head, tail, items, chains := null, null, [], [];
      buckets := new Bucket[0];
    }

    /** HASH_FIND */
    method Find(key: string) returns (out: Item?)
      requires Valid()
      ensures if key in Contents() then out == Contents()[key] else out == null
    {
      MapOfSpec(items);
      out := null;
      if head != null {
        var hashv := hash(key);
        ShiftAndMask(hashv, log2NumBuckets);
        var bkt := BktOf(hashv, numBuckets);
        assert BucketAt(buckets[..], chains, Elems(items), bkt);
        out := FindInBkt(buckets[bkt], key, hashv, chains[bkt]);
      }
    }

    /** HASH_MAKE_TABLE, for the first item. */
    method MakeTable(add: Item)
      requires items == []
      modifies this
      ensures TableOk() && fresh(buckets) && noexpand == false && numBuckets == 32
      ensures forall b | 0 <= b < buckets.Length :: buckets[b].count == buckets[b].expandMult == 0
      ensures items == [] && head == old(head) && tail == add
    {
      var bkts;
      ghost var empty;
      bkts, empty := NewBuckets(HASH_INITIAL_NUM_BUCKETS, 0);
      tail, buckets, chains := add, bkts, empty;
      ClearTable();
      assert Elems(items) == {};
    }

    /** The fields of a new table. */
    method ClearTable()
      modifies this`numBuckets, this`log2NumBuckets, this`numItems, this`idealChainMaxlen, this`nonidealItems,
               this`ineffExpands, this`noexpand
      ensures numBuckets == HASH_INITIAL_NUM_BUCKETS == Pow2(log2NumBuckets)
      ensures log2NumBuckets == HASH_INITIAL_NUM_BUCKETS_LOG2
      ensures numItems == idealChainMaxlen == nonidealItems == ineffExpands == 0 && !noexpand
    {
      numBuckets, log2NumBuckets := HASH_INITIAL_NUM_BUCKETS, HASH_INITIAL_NUM_BUCKETS_LOG2;
      numItems, idealChainMaxlen, nonidealItems, ineffExpands, noexpand := 0, 0, 0, 0, false;
      InitialSize();
    }

    /** The end of HASH_EXPAND_BUCKETS: two ineffective expansions in a row inhibit further ones. */
    method NoteEffect()
      modifies this`ineffExpands, this`noexpand
      ensures ineffExpands == if nonidealItems > numItems / 2 then old(ineffExpands) + 1 else 0
      ensures noexpand == (old(noexpand) || ineffExpands > 1)
    {
      assert Shr(numItems, 1) == Shr(numItems / 2, 0);
      ineffExpands := if nonidealItems > Shr(numItems, 1) then ineffExpands + 1 else 0;
      if ineffExpands > 1 {
        noexpand := true;
      }
    }

    /** HASH_EXPAND_BUCKETS */
    method ExpandBuckets()
      requires TableOk() && numItems > 0
      modifies this`buckets, this`numBuckets, this`log2NumBuckets, this`idealChainMaxlen, this`nonidealItems,
               this`ineffExpands, this`noexpand, this`chains, Elems(items)`hhNext, Elems(items)`hhPrev
      ensures TableOk() && fresh(buckets) && numBuckets == 2 * old(numBuckets)
      ensures idealChainMaxlen == IdealChain(numItems, log2NumBuckets)
      ensures nonidealItems == Excess(chains, idealChainMaxlen)
      ensures idealChainMaxlen > 0 && Mults(buckets[..], idealChainMaxlen)
      ensures ineffExpands == (if nonidealItems > numItems / 2 then old(ineffExpands) + 1 else 0)
      ensures noexpand == (old(noexpand) || ineffExpands > 1)
    {
      DoubleBuckets();
      NoteEffect();
    }

    /** The first part of HASH_EXPAND_BUCKETS: twice as many buckets, with all items. */
    method DoubleBuckets()
      requires TableOk() && numItems > 0
      modifies this`buckets, this`numBuckets, this`log2NumBuckets, this`idealChainMaxlen, this`nonidealItems,
               this`chains, Elems(items)`hhNext, Elems(items)`hhPrev
      ensures TableOk() && fresh(buckets) && numBuckets == 2 * old(numBuckets)
      ensures idealChainMaxlen == IdealChain(numItems, log2NumBuckets)
      ensures nonidealItems == Excess(chains, idealChainMaxlen)
      ensures idealChainMaxlen > 0 && Mults(buckets[..], idealChainMaxlen)
    {
      var n, lb := 2 * numBuckets, log2NumBuckets + 1;
      assert Pow2(lb) == n;
      var ideal := IdealChain(numItems, lb);
      IdealIsCeiling(numItems, lb);
      var newBuckets, nonideal;
      ghost var chains';
      newBuckets, nonideal, chains' := Redistribute(buckets, lb, n, ideal, chains, Elems(items));
      buckets, chains, numBuckets, log2NumBuckets := newBuckets, chains', n, lb;
      idealChainMaxlen, nonidealItems := ideal, nonideal;
    }

    /** HASH_ADD_TO_TABLE with HASH_ADD_TO_BKT: count the item, chain it into its bucket, maybe double the buckets. */
    method AddToTable(add: Item)
      requires TableOk() && add !in items
      modifies this`buckets, this`numBuckets, this`log2NumBuckets, this`idealChainMaxlen, this`nonidealItems,
               this`numItems, this`ineffExpands, this`noexpand, this`chains, this`items,
               buckets, Elems(items)`hhNext, Elems(items)`hhPrev, add`hhNext, add`hhPrev
      ensures TableOk() && items == old(items) + [add] && (buckets == old(buckets) || fresh(buckets))
      ensures numBuckets == if old(Crowded(add)) then 2 * old(numBuckets) else old(numBuckets)
    {
      var b := ChainIn(add);
      if buckets[b].count >= (buckets[b].expandMult + 1) * HASH_BKT_CAPACITY_THRESH && !noexpand {
        ExpandBuckets();
      }
    }

    /** Its first part: the item is counted and chained in. */
    method ChainIn(add: Item) returns (b: nat)
      requires TableOk() && add !in items
      modifies this`numItems, this`chains, this`items,
               buckets, Elems(items)`hhPrev, add`hhNext, add`hhPrev
      ensures TableOk() && items == old(items) + [add] && numItems > 0
      ensures b == BktOf(add.hashv, numBuckets) < buckets.Length
      ensures buckets[b].count == old(buckets[b].count) + 1 && buckets[b].expandMult == old(buckets[b].expandMult)
    {
      numItems := numItems + 1;
      ShiftAndMask(add.hashv, log2NumBuckets);
      ghost var all := Elems(items);
      b, chains := AddToChains(buckets, add, chains, all);
      items := items + [add];
      assert Elems(items) == all + {add};
    }

    /** HASH_ADD for a key that is not in the table. */
    method Add(add: Item)
      requires Valid() && add !in items && add.key !in Contents() && add.hashv == hash(add.key)
      modifies this, buckets, items, add
      ensures Valid() && items == old(items) + [add] && (buckets == old(buckets) || fresh(buckets))
      ensures Contents() == old(Contents())[add.key := add]
      ensures numBuckets == if old(items) == [] then 32
                            else if old(Crowded(add)) then 2 * old(numBuckets) else old(numBuckets)
    {
      MapOfSpec(items);
      MapOfAppend(items, add);
      LinkItem(add);
    }

    method LinkItem(add: Item)
      requires Linked() && add !in items
      modifies this, buckets, items, add
      ensures Linked() && items == old(items) + [add] && (buckets == old(buckets) || fresh(buckets))
      ensures numBuckets == if old(items) == [] then 32
                            else if old(Crowded(add)) then 2 * old(numBuckets) else old(numBuckets)
    {
      LinkApp(add);
      AddToTable(add);
    }

    /** The application-order part of HASH_ADD, which makes the table for a first item. */
    method LinkApp(add: Item)
      requires Linked() && add !in items
      modifies this, items`next, add`next, add`prev
      ensures TableOk() && items == old(items) && head != null && AppOrder(head, tail, items + [add])
      ensures items != [] ==> unchanged(`buckets)
      ensures items == [] ==> fresh(buckets) && numBuckets == 32 && !Crowded(add)
      ensures items != [] ==> unchanged(`numBuckets, `noexpand)
    {
      if head == null {
        add.next := null;
        add.prev := null;
        MakeTable(add);
        head := add;
        assert items + [add] == [add];
      } else {
        AppendList(head, tail, add, items);
        tail := add;
      }
    }

    /** HASH_DELETE_HH, for the item number k in application order. */
    method Delete(del: Item, ghost k: nat)
      requires Valid() && k < |items| && items[k] == del
      modifies this, buckets, items
      ensures Valid() && items == old(items)[..k] + old(items)[k + 1..] && buckets == old(buckets)
      ensures Contents() == old(Contents()) - {del.key}
    {
      MapOfRemove(items, k);
      KeysRemove(items, k);
      UnlinkItem(del, k);
    }

    /** HASH_FIND, and HASH_ADD if there is nothing under the key. */
    method PutItem(item: Item, ghost all: set<Item>)
      requires Valid() && Within(items, all) && item in all && item.hashv == hash(item.key)
      modifies this, buckets, all
      ensures Valid() && Within(items, all) && (buckets == old(buckets) || fresh(buckets))
      ensures items == Step(old(items), Put(item)) && Contents() == After(old(Contents()), Put(item))
    {
      var out := Find(item.key);
      KeyIsThere(items, item.key);
      if out == null {
        Add(item);
      }
    }

    /** HASH_FIND, and HASH_DEL if there is something. */
    method TakeKey(key: string, ghost all: set<Item>)
      requires Valid() && Within(items, all)
      modifies this, buckets, all
      ensures Valid() && Within(items, all) && buckets == old(buckets)
      ensures items == Step(old(items), Take(key)) && Contents() == After(old(Contents()), Take(key))
    {
      var out := Find(key);
      KeyIsThere(items, key);
      if out == null {
        DroppedNone(items, key);
      } else {
        TakeItem(out, all);
      }
    }

    method TakeItem(out: Item, ghost all: set<Item>)
      requires Valid() && Within(items, all) && out in items
      modifies this, buckets, all
      ensures Valid() && Within(items, all) && buckets == old(buckets)
      ensures items == Dropped(old(items), out.key) && Contents() == old(Contents()) - {out.key}
    {
      ghost var k := Taken(items, out, all);
      Delete(out, k);
    }

    method PerformOne(op: Op, ghost all: set<Item>)
      requires Valid() && Within(items, all) && (op.Put? ==> op.item in all && op.item.hashv == hash(op.item.key))
      modifies this, buckets, all
      ensures Valid() && Within(items, all) && (buckets == old(buckets) || fresh(buckets))
      ensures items == Step(old(items), op) && Contents() == After(old(Contents()), op)
    {
      match op {
        case Put(item) => PutItem(item, all);
        case Take(key) => TakeKey(key, all);
      }
    }

    /** Any run of operations, whatever the keys: the table stands for the map, and for the order, the run makes. */
    method Perform(ops: seq<Op>, ghost all: set<Item>)
      requires Valid() && Within(items, all)
      requires forall op | op in ops && op.Put? :: op.item in all && op.item.hashv == hash(op.item.key)
      modifies this, buckets, all
      ensures Valid() && Within(items, all) && (buckets == old(buckets) || fresh(buckets))
      ensures items == Run(old(items), ops) && Contents() == AfterAll(old(Contents()), ops)
    {
      var n := 0;
      while n < |ops|
        invariant n <= |ops| && Valid() && Within(items, all) && (buckets == old(buckets) || fresh(buckets))
        invariant items == Run(old(items), ops[..n]) && Contents() == AfterAll(old(Contents()), ops[..n])
      {
        NextOp(old(items), old(Contents()), ops, n);
        PerformOne(ops[n], all);
        n := n + 1;
      }
      assert ops[..|ops|] == ops;
    }

    method UnlinkItem(del: Item, ghost k: nat)
      requires Linked() && k < |items| && items[k] == del
      modifies this, buckets, items
      ensures Linked() && items == old(items)[..k] + old(items)[k + 1..] && buckets == old(buckets)
    {
      ghost var s := items;
      assert s[k].prev == (if k == 0 then null else s[k - 1]) && s[k].next == if k + 1 < |s| then s[k + 1] else null;
      if del.prev == null && del.next == null {
        head := null;
        items := [];
      } else {
        DeleteFromMany(del, k);
      }
    }

    method DeleteFromMany(del: Item, ghost k: nat)
      requires AppOrder(head, tail, items) && head != null && TableOk() && |items| > 1 && k < |items| && items[k] == del
      modifies this`head, this`tail, this`numItems, this`chains, this`items, buckets, items
      ensures TableOk() && items == old(items)[..k] + old(items)[k + 1..]
      ensures AppOrder(head, tail, items) && head != null
    {
      ghost var rest := items[..k] + items[k + 1..];
      head, tail := UnlinkApp(head, tail, del, items, k);
      assert head != null && AppOrder(head, tail, rest) && TableOk();
      RemoveFromTable(del, k);
      assert items == rest;
    }

    /** The bucket part of HASH_DELETE_HH. */
    method RemoveFromTable(del: Item, ghost k: nat)
      requires TableOk() && k < |items| && items[k] == del && Distinct(items)
      modifies this`numItems, this`chains, this`items, buckets, Elems(items)`hhNext, Elems(items)`hhPrev
      ensures TableOk() && items == old(items)[..k] + old(items)[k + 1..]
    {
      ghost var t, all := items[..k] + items[k + 1..], Elems(items);
      assert forall i | 0 <= i < |t| :: t[i] == if i < k then items[i] else items[i + 1];
      chains := DelInChains(buckets, del, chains, all);
      assert Elems(t) == all - {del} by {
        forall x | x in all && x != del ensures x in t {
          var j :| 0 <= j < |items| && items[j] == x;
          assert t[if j < k then j else j - 1] == x;
        }
      }
      items := t;
      numItems := numItems - 1;
    }
  }
}
