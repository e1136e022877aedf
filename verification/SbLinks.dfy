/**
  What the links of the stream list look like, in the middle of linking and unlinking too, and what each write
  does to them.
 */
module SbLinks {
  import opened CStrings
  import opened SbList
  import opened Seqs

  function NextAt(list: seq<Id>, i: nat): Option<Id>
    requires i < |list|
  {
    if i + 1 < |list| then Some(list[i + 1]) else None
  }

  function PrevAt(list: seq<Id>, i: nat): Option<Id>
    requires i < |list|
  {
    if i == 0 then None else Some(list[i - 1])
  }

  function Nexts(list: seq<Id>): (n: seq<Option<Id>>)
    ensures |n| == |list|
    ensures forall i | 0 <= i < |list| :: n[i] == NextAt(list, i)
  {
    seq(|list|, i requires 0 <= i < |list| => NextAt(list, i))
  }

  function Prevs(list: seq<Id>): (p: seq<Option<Id>>)
    ensures |p| == |list|
    ensures forall i | 0 <= i < |list| :: p[i] == PrevAt(list, i)
  {
    seq(|list|, i requires 0 <= i < |list| => PrevAt(list, i))
  }

  /** The streams of list have exactly these pointers in the field f. */
  ghost predicate Ptrs(f: map<Id, Option<Id>>, list: seq<Id>, vals: seq<Option<Id>>) {
    && |vals| == |list|
    && forall i {:trigger list[i]} | 0 <= i < |list| :: list[i] in f && f[list[i]] == vals[i]
  }

  ghost predicate Wired(m: Mem, nexts: seq<Option<Id>>, prevs: seq<Option<Id>>) {
    && Distinct(m.list)
    && m.head == (if m.list == [] then None else Some(m.list[0]))
    && Ptrs(m.next, m.list, nexts)
    && Ptrs(m.prev, m.list, prevs)
  }

  /** A well-formed doubly linked list of exactly m.list, without duplicates. */
  ghost predicate Links(m: Mem) {
    Wired(m, Nexts(m.list), Prevs(m.list))
  }

  predicate Critical(pc: Pc) {
    pc.LinkHead? || pc.LinkWalk? || pc.LinkBack? || pc.LinkUnlock? ||
    pc.UnlinkNext? || pc.UnlinkPrev? || pc.UnlinkHead? || pc.UnlinkUnlock?
  }

  /** The stream is in the list. */
  predicate Linked(pc: Pc) {
    || pc.LinkBack? || pc.LinkUnlock? || pc.Create? || pc.Run?
    || pc.UnlinkLock? || pc.UnlinkNext? || pc.UnlinkPrev? || pc.UnlinkHead?
  }

  ghost function Pos(s: seq<Id>, id: Id): (k: nat)
    requires id in s
    ensures k < |s| && s[k] == id
  {
    var k: nat :| k < |s| && s[k] == id;
    k
  }

  /**
    The prev pointers once the stream at k has been bypassed from behind, and the next pointers once from the
    front.
   */
  function PrevsPast(list: seq<Id>, k: nat): (p: seq<Option<Id>>)
    requires k < |list|
  {
    if k + 1 < |list| then Prevs(list)[k + 1 := Prevs(list)[k]] else Prevs(list)
  }

  function NextsPast(list: seq<Id>, k: nat): (n: seq<Option<Id>>)
    requires k < |list|
  {
    if k > 0 then Nexts(list)[k - 1 := Nexts(list)[k]] else Nexts(list)
  }

  /** The list as the actor in the critical section at pc, with stream id, has left it. */
  ghost predicate MidList(m: Mem, id: Id, pc: Pc) {
    match pc
    case LinkBack(cur) =>
      && |m.list| >= 2 && m.list[|m.list| - 1] == id && m.list[|m.list| - 2] == cur
      && Wired(m, Nexts(m.list), Prevs(m.list)[|m.list| - 1 := None])
    case UnlinkPrev => id in m.list && Wired(m, Nexts(m.list), PrevsPast(m.list, Pos(m.list, id)))
    case UnlinkHead =>
      id in m.list && Wired(m, NextsPast(m.list, Pos(m.list, id)), PrevsPast(m.list, Pos(m.list, id)))
    case LinkWalk(cur) => Links(m) && cur in m.list
    case _ => Links(m)
  }

  /** What an actor that holds stream id at pc may rely on. */
  ghost predicate Holds(m: Mem, a: Actor, id: Id, pc: Pc) {
    && pc != Idle
    && Allocated(m, id)
    && (Critical(pc) <==> m.lock == Some(a))
    && (Critical(pc) ==> MidList(m, id, pc))
    && (id in m.list <==> Linked(pc))
    && (pc.LinkLock? || pc.LinkHead? || pc.LinkWalk? ==> m.next[id] == None && m.prev[id] == None)
  }

  // ---- what the steps do to the list ----

  lemma PtrsUpdate(f: map<Id, Option<Id>>, list: seq<Id>, vals: seq<Option<Id>>, k: nat, v: Option<Id>)
    requires Distinct(list) && Ptrs(f, list, vals) && k < |list|
    ensures Ptrs(f[list[k] := v], list, vals[k := v])
  {
  }

  lemma PtrsAppend(f: map<Id, Option<Id>>, list: seq<Id>, vals: seq<Option<Id>>, id: Id)
    requires Ptrs(f, list, vals) && id in f
    ensures Ptrs(f, list + [id], vals + [f[id]])
  {
  }

  lemma PtrsRemove(f: map<Id, Option<Id>>, list: seq<Id>, vals: seq<Option<Id>>, id: Id)
    requires Ptrs(f, list, vals) && id !in list
    ensures Ptrs(f - {id}, list, vals)
  {
    forall i | 0 <= i < |list| ensures list[i] in f - {id} && (f - {id})[list[i]] == vals[i] {
      assert list[i] in list;
    }
  }

  function Cut<T>(s: seq<T>, k: nat): (t: seq<T>)
    requires k < |s|
    ensures |t| == |s| - 1
  {
    s[..k] + s[k + 1..]
  }

  lemma PtrsCut(f: map<Id, Option<Id>>, list: seq<Id>, vals: seq<Option<Id>>, k: nat)
    requires Ptrs(f, list, vals) && k < |list|
    ensures Ptrs(f, Cut(list, k), Cut(vals, k))
  {
  }

  lemma CutTail<T>(s: seq<T>, k: nat)
    requires 0 < k < |s|
    ensures Cut(s, k) == [s[0]] + Cut(s[1..], k - 1)
  {
    assert s[..k] == [s[0]] + s[1..][..k - 1];
    assert s[k + 1..] == s[1..][k..];
  }

  lemma {:induction false} WithoutCuts(s: seq<Id>, id: Id, k: nat)
    requires k < |s| && s[k] == id && forall i | 0 <= i < k :: s[i] != id
    ensures Without(s, id) == Cut(s, k)
    decreases k
  {
    if k > 0 {
      WithoutCuts(s[1..], id, k - 1);
      CutTail(s, k);
    }
  }

  lemma WithoutSpec(s: seq<Id>, id: Id, k: nat)
    requires Distinct(s) && k < |s| && s[k] == id
    ensures Without(s, id) == Cut(s, k) && id !in Without(s, id)
    ensures forall x | x != id :: x in Without(s, id) <==> x in s
  {
    WithoutCuts(s, id, k);
    assert s == s[..k] + [id] + s[k + 1..];
  }

  lemma DistinctAppend(s: seq<Id>, id: Id)
    requires Distinct(s) && id !in s
    ensures Distinct(s + [id])
  {
  }

  lemma DistinctCut(s: seq<Id>, k: nat)
    requires Distinct(s) && k < |s|
    ensures Distinct(Cut(s, k))
  {
    forall i, j | 0 <= i < j < |s| - 1 ensures Cut(s, k)[i] != Cut(s, k)[j] {
      assert s[if i < k then i else i + 1] != s[if j < k then j else j + 1];
    }
  }

  lemma AppendedPointers(list: seq<Id>, id: Id)
    requires list != []
    ensures Prevs(list) + [None] == Prevs(list + [id])[|list| := None]
    ensures Nexts(list)[|list| - 1 := Some(id)] + [None] == Nexts(list + [id])
  {
  }

  lemma CutAt<T>(s: seq<T>, k: nat, i: nat)
    requires k < |s| && i < |s| - 1
    ensures Cut(s, k)[i] == s[if i < k then i else i + 1]
  {
  }

  lemma CutNextAt(list: seq<Id>, k: nat, i: nat)
    requires k < |list| && i < |list| - 1
    ensures Cut(NextsPast(list, k), k)[i] == NextAt(Cut(list, k), i)
  {
    CutAt(NextsPast(list, k), k, i);
    if i + 1 < |list| - 1 {
      CutAt(list, k, i + 1);
    }
  }

  lemma CutPrevAt(list: seq<Id>, k: nat, i: nat)
    requires k < |list| && i < |list| - 1
    ensures Cut(PrevsPast(list, k), k)[i] == PrevAt(Cut(list, k), i)
  {
    CutAt(PrevsPast(list, k), k, i);
    if i > 0 {
      CutAt(list, k, i - 1);
    }
  }

  lemma CutPointers(list: seq<Id>, k: nat)
    requires k < |list|
    ensures Cut(NextsPast(list, k), k) == Nexts(Cut(list, k))
    ensures Cut(PrevsPast(list, k), k) == Prevs(Cut(list, k))
  {
    forall i | 0 <= i < |list| - 1 ensures Cut(NextsPast(list, k), k)[i] == Nexts(Cut(list, k))[i] {
      CutNextAt(list, k, i);
    }
    forall i | 0 <= i < |list| - 1 ensures Cut(PrevsPast(list, k), k)[i] == Prevs(Cut(list, k))[i] {
      CutPrevAt(list, k, i);
    }
  }

  lemma AppendFirst(m: Mem, id: Id)
    requires Links(m) && m.list == [] && Allocated(m, id) && m.next[id] == None && m.prev[id] == None
    ensures Links(m.(head := Some(id), list := [id]))
  {
  }

  lemma AppendLast(m: Mem, cur: Id, id: Id)
    requires Links(m) && cur in m.list && m.next[cur] == None
    requires Allocated(m, id) && m.next[id] == None && m.prev[id] == None && id !in m.list
    ensures cur in m.next
    ensures MidList(m.(next := m.next[cur := Some(id)], list := m.list + [id]), id, LinkBack(cur))
  {
    var k := Pos(m.list, cur);
    assert k + 1 == |m.list| by { assert m.next[m.list[k]] == Nexts(m.list)[k]; }
    PtrsAppend(m.prev, m.list, Prevs(m.list), id);
    AppendedPointers(m.list, id);
    DistinctAppend(m.list, id);
    PtrsUpdate(m.next, m.list, Nexts(m.list), k, Some(id));
    PtrsAppend(m.next[cur := Some(id)], m.list, Nexts(m.list)[k := Some(id)], id);
  }

  lemma BackLinked(m: Mem, cur: Id, id: Id)
    requires MidList(m, id, LinkBack(cur))
    ensures Links(m.(prev := m.prev[id := Some(cur)]))
  {
    var k := |m.list| - 1;
    PtrsUpdate(m.prev, m.list, Prevs(m.list)[k := None], k, Some(cur));
    assert Prevs(m.list)[k := None][k := Some(cur)] == Prevs(m.list);
  }

  lemma WiredPrev(m: Mem, nexts: seq<Option<Id>>, prevs: seq<Option<Id>>, k: nat, to: Id, v: Option<Id>)
    requires Wired(m, nexts, prevs) && k < |m.list| && to == m.list[k]
    ensures Wired(m.(prev := m.prev[to := v]), nexts, prevs[k := v])
  {
    PtrsUpdate(m.prev, m.list, prevs, k, v);
  }

  lemma WiredNext(m: Mem, nexts: seq<Option<Id>>, prevs: seq<Option<Id>>, k: nat, to: Id, v: Option<Id>)
    requires Wired(m, nexts, prevs) && k < |m.list| && to == m.list[k]
    ensures Wired(m.(next := m.next[to := v]), nexts[k := v], prevs)
  {
    PtrsUpdate(m.next, m.list, nexts, k, v);
  }

  lemma WiredAt(m: Mem, nexts: seq<Option<Id>>, prevs: seq<Option<Id>>, k: nat, id: Id)
    requires Wired(m, nexts, prevs) && k < |m.list| && id == m.list[k]
    ensures Allocated(m, id) && m.next[id] == nexts[k] && m.prev[id] == prevs[k]
  {
  }

  /** The first write of unlinking, at position k. */
  lemma NextBypassedAt(m: Mem, id: Id, k: nat)
    requires Links(m) && k < |m.list| && id == m.list[k]
    ensures Allocated(m, id) && Deref(m, m.next[id])
    ensures Wired(if m.next[id].Some? then m.(prev := m.prev[m.next[id].value := m.prev[id]]) else m,
                  Nexts(m.list), PrevsPast(m.list, k))
  {
    WiredAt(m, Nexts(m.list), Prevs(m.list), k, id);
    if k + 1 < |m.list| {
      WiredAt(m, Nexts(m.list), Prevs(m.list), k + 1, m.list[k + 1]);
      WiredPrev(m, Nexts(m.list), Prevs(m.list), k + 1, m.list[k + 1], m.prev[id]);
    }
  }

  lemma NextBypassed(m: Mem, id: Id)
    requires Links(m) && id in m.list
    ensures Allocated(m, id) && Deref(m, m.next[id])
    ensures MidList(if m.next[id].Some? then m.(prev := m.prev[m.next[id].value := m.prev[id]]) else m, id, UnlinkPrev)
  {
    NextBypassedAt(m, id, Pos(m.list, id));
  }

  /** The second write of unlinking, at position k. */
  lemma PrevBypassedAt(m: Mem, id: Id, k: nat)
    requires k < |m.list| && id == m.list[k] && Wired(m, Nexts(m.list), PrevsPast(m.list, k))
    ensures Allocated(m, id) && Deref(m, m.prev[id])
    ensures Wired(if m.prev[id].Some? then m.(next := m.next[m.prev[id].value := m.next[id]]) else m,
                  NextsPast(m.list, k), PrevsPast(m.list, k))
  {
    var nexts, prevs := Nexts(m.list), PrevsPast(m.list, k);
    WiredAt(m, nexts, prevs, k, id);
    if k > 0 {
      WiredAt(m, nexts, prevs, k - 1, m.list[k - 1]);
      WiredNext(m, nexts, prevs, k - 1, m.list[k - 1], m.next[id]);
    }
  }

  lemma PrevBypassed(m: Mem, id: Id)
    requires MidList(m, id, UnlinkPrev)
    ensures Allocated(m, id) && Deref(m, m.prev[id])
    ensures MidList(if m.prev[id].Some? then m.(next := m.next[m.prev[id].value := m.next[id]]) else m, id, UnlinkHead)
  {
    PrevBypassedAt(m, id, Pos(m.list, id));
  }

  lemma Unlinked(m: Mem, id: Id)
    requires MidList(m, id, UnlinkHead)
    ensures Allocated(m, id)
    ensures Links(m.(head := if m.head == Some(id) then m.next[id] else m.head, list := Without(m.list, id)))
    ensures id !in Without(m.list, id) && forall x | x != id :: x in Without(m.list, id) <==> x in m.list
  {
    var k := Pos(m.list, id);
    WithoutSpec(m.list, id, k);
    CutPointers(m.list, k);
    DistinctCut(m.list, k);
    PtrsCut(m.next, m.list, NextsPast(m.list, k), k);
    PtrsCut(m.prev, m.list, PrevsPast(m.list, k), k);
    assert m.next[m.list[k]] == NextsPast(m.list, k)[k];
  }

  lemma DestroyKeepsWired(m: Mem, id: Id, nexts: seq<Option<Id>>, prevs: seq<Option<Id>>)
    requires Wired(m, nexts, prevs) && id !in m.list
    ensures Wired(Freed(m, id), nexts, prevs)
  {
    PtrsRemove(m.next, m.list, nexts, id);
    PtrsRemove(m.prev, m.list, prevs, id);
  }

  lemma Walked(m: Mem, cur: Id)
    requires Links(m) && cur in m.list
    ensures cur in m.next && (m.next[cur].Some? ==> m.next[cur].value in m.list)
  {
    var k := Pos(m.list, cur);
    assert m.next[m.list[k]] == Nexts(m.list)[k];
  }

  lemma LockKeepsWired(m: Mem, l: Option<Actor>, nexts: seq<Option<Id>>, prevs: seq<Option<Id>>)
    requires Wired(m, nexts, prevs)
    ensures Wired(m.(lock := l), nexts, prevs)
  {
  }
}
