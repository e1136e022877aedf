/**
  The doubly linked lists of utlist.h: DL_APPEND, DL_DELETE, DL_FOREACH order, and the in-place DL_SORT.

  A list is its head pointer; `List` ties the head to the sequence of elements: `next` leads through them to
  null, `prev` leads back, and the head's `prev` is the tail.
 */
module DList {
  import opened Seqs

  class Elt<V> {
    const data: V
    var prev: Elt?<V>
    var next: Elt?<V>

    constructor (data: V)
      ensures this.data == data
    {
      this.data := data;
    }
  }

  /** `next` leads through s and then to `end`. */
  ghost predicate Chain<V>(s: seq<Elt<V>>, end: Elt?<V>)
    reads s
  {
    forall i {:trigger s[i].next} | 0 <= i < |s| :: s[i].next == if i + 1 < |s| then s[i + 1] else end
  }

  /** `prev` leads back through s, and from the first element to `front`. */
  ghost predicate Back<V>(s: seq<Elt<V>>, front: Elt?<V>)
    reads s
  {
    forall i {:trigger s[i].prev} | 0 <= i < |s| :: s[i].prev == if i == 0 then front else s[i - 1]
  }

  ghost predicate List<V>(head: Elt?<V>, s: seq<Elt<V>>)
    reads s
  {
    && Distinct(s)
    && head == (if s == [] then null else s[0])
    && Chain(s, null)
    && (s != [] ==> Back(s, s[|s| - 1]))
  }

  /** DL_APPEND2 */
  method Append<V>(head: Elt?<V>, add: Elt<V>, ghost s: seq<Elt<V>>) returns (head': Elt<V>)
    requires List(head, s) && add !in s
    modifies s, add
    ensures List(head', s + [add])
  {
    ghost var t := s + [add];
    assert forall i | 0 <= i < |t| :: t[i] == if i < |s| then s[i] else add;
    if head != null {
      assert s[0].prev == s[|s| - 1] && s[|s| - 1].next == null;
      add.prev := head.prev;
      head.prev.next := add;
      head.prev := add;
      add.next := null;
      head' := head;
    } else {
      head' := add;
      head'.prev := head';
      head'.next := null;
    }
  }

  /** DL_DELETE2 */
  method Delete<V>(head: Elt?<V>, del: Elt<V>, ghost s: seq<Elt<V>>, ghost k: nat) returns (head': Elt?<V>)
    requires List(head, s) && k < |s| && s[k] == del
    modifies s
    ensures List(head', s[..k] + s[k + 1..])
  {
    head' := head;
    ghost var t := s[..k] + s[k + 1..];
    assert forall i | 0 <= i < |t| :: t[i] == if i < k then s[i] else s[i + 1];
    assert s[k].prev == (if k == 0 then s[|s| - 1] else s[k - 1]) && s[0].prev == s[|s| - 1];
    assert s[k].next == if k + 1 < |s| then s[k + 1] else null;
    if del.prev == del {
      head' := null;
    } else if del == head {
      del.next.prev := del.prev;
      head' := del.next;
    } else {
      del.prev.next := del.next;
      if del.next != null {
        del.next.prev := del.prev;
      } else {
        head.prev := del.prev;
      }
    }
  }
}
