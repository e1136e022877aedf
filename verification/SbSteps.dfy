/**
  One step of linking, unlinking or destroying: what it leaves to the actor that makes it, and to every other
  actor.
 */
module SbSteps {
  import opened CStrings
  import opened SbList
  import opened SbLinks

  /** What an actor's own step in the critical section leaves for its next step, and leaves at the end. */
  ghost predicate Onward(m': Mem, id: Id, pc': Pc) {
    if Critical(pc') then MidList(m', id, pc') else Links(m')
  }

  lemma WalkStep(m: Mem, a: Actor, id: Id, cur: Id, m': Mem, pc': Pc)
    requires MemStep(m, a, id, LinkWalk(cur), m', pc') && Allocated(m, id) && Links(m) && cur in m.list
    requires id !in m.list && m.next[id] == None && m.prev[id] == None
    ensures Onward(m', id, pc') && (id in m'.list <==> Linked(pc'))
  {
    Walked(m, cur);
    if m.next[cur].None? { AppendLast(m, cur, id); }
  }

  lemma LinkStep(m: Mem, a: Actor, id: Id, pc: Pc, m': Mem, pc': Pc)
    requires MemStep(m, a, id, pc, m', pc') && Allocated(m, id) && MidList(m, id, pc)
    requires id in m.list <==> Linked(pc)
    requires pc.LinkHead? || pc.LinkWalk? ==> m.next[id] == None && m.prev[id] == None
    requires pc.LinkHead? || pc.LinkWalk? || pc.LinkBack? || pc.LinkUnlock?
    ensures Onward(m', id, pc') && (id in m'.list <==> Linked(pc'))
  {
    match pc {
      case LinkHead => { if m.head.None? { AppendFirst(m, id); } }
      case LinkWalk(cur) => { WalkStep(m, a, id, cur, m', pc'); }
      case LinkBack(cur) => { BackLinked(m, cur, id); }
      case _ => { LockKeepsWired(m, None, Nexts(m.list), Prevs(m.list)); }
    }
  }

  lemma UnlinkStep(m: Mem, a: Actor, id: Id, pc: Pc, m': Mem, pc': Pc)
    requires MemStep(m, a, id, pc, m', pc') && MidList(m, id, pc) && (id in m.list <==> Linked(pc))
    requires pc.UnlinkNext? || pc.UnlinkPrev? || pc.UnlinkHead? || pc.UnlinkUnlock?
    ensures Onward(m', id, pc') && (id in m'.list <==> Linked(pc'))
  {
    match pc {
      case UnlinkNext => UnlinkNextStep(m, id, m');
      case UnlinkPrev => UnlinkPrevStep(m, id, m');
      case UnlinkHead => Unlinked(m, id);
      case _ => LockKeepsWired(m, None, Nexts(m.list), Prevs(m.list));
    }
  }

  lemma UnlinkNextStep(m: Mem, id: Id, m': Mem)
    requires Links(m) && id in m.list
    requires id in m.next && id in m.prev
    requires m' == if m.next[id].Some? then m.(prev := m.prev[m.next[id].value := m.prev[id]]) else m
    ensures MidList(m', id, UnlinkPrev) && m'.list == m.list
  {
    NextBypassed(m, id);
  }

  lemma UnlinkPrevStep(m: Mem, id: Id, m': Mem)
    requires MidList(m, id, UnlinkPrev)
    requires id in m.next && id in m.prev
    requires m' == if m.prev[id].Some? then m.(next := m.next[m.prev[id].value := m.next[id]]) else m
    ensures MidList(m', id, UnlinkHead) && m'.list == m.list
  {
    PrevBypassed(m, id);
  }

  /** x is where it was in memory and in the list, and if it is not in the list its pointers are what they were. */
  ghost predicate Untouched(m: Mem, m': Mem, x: Id) {
    && (x in m'.list <==> x in m.list)
    && (x in m'.next <==> x in m.next) && (x in m'.prev <==> x in m.prev)
    && (Allocated(m, x) && x !in m.list ==> m'.next[x] == m.next[x] && m'.prev[x] == m.prev[x])
  }

  lemma LinkLeavesOthers(m: Mem, a: Actor, id: Id, pc: Pc, m': Mem, pc': Pc, x: Id)
    requires MemStep(m, a, id, pc, m', pc') && x != id
    requires pc.LinkWalk? ==> pc.cur in m.list
    requires pc.LinkLock? || pc.LinkHead? || pc.LinkWalk? || pc.LinkBack? || pc.LinkUnlock?
    ensures Untouched(m, m', x)
  {
  }

  lemma UnlinkLeavesOthers(m: Mem, a: Actor, id: Id, pc: Pc, m': Mem, pc': Pc, x: Id)
    requires MemStep(m, a, id, pc, m', pc') && x != id && (Critical(pc) ==> MidList(m, id, pc))
    requires pc.UnlinkNext? ==> id in m.list
    requires pc.UnlinkLock? || pc.UnlinkNext? || pc.UnlinkPrev? || pc.UnlinkHead? || pc.UnlinkUnlock? || pc.Destroy?
    ensures Untouched(m, m', x)
  {
    match pc {
      case UnlinkNext => { NextBypassed(m, id); }
      case UnlinkPrev => { PrevBypassed(m, id); }
      case UnlinkHead => { Unlinked(m, id); }
      case _ =>
    }
  }

  lemma OutsideStep(m: Mem, a: Actor, id: Id, pc: Pc, m': Mem, pc': Pc)
    requires MemStep(m, a, id, pc, m', pc') && (id in m.list <==> Linked(pc)) && (m.lock == None ==> Links(m))
    requires pc.LinkLock? || pc.UnlinkLock? || pc.Destroy?
    ensures m.lock == None ==> Onward(m', id, pc')
    ensures pc' != Idle ==> (id in m'.list <==> Linked(pc'))
  {
    if pc == Destroy {
      if m.lock == None { DestroyKeepsWired(m, id, Nexts(m.list), Prevs(m.list)); }
    } else {
      LockKeepsWired(m, Some(a), Nexts(m.list), Prevs(m.list));
    }
  }

  lemma OwnPointers(m: Mem, a: Actor, id: Id, pc: Pc, m': Mem, pc': Pc)
    requires MemStep(m, a, id, pc, m', pc') && Allocated(m, id) && (Critical(pc) <==> m.lock == Some(a))
    requires pc.LinkLock? || pc.LinkHead? || pc.LinkWalk? ==> m.next[id] == None && m.prev[id] == None
    ensures pc' != Idle ==> Allocated(m', id)
    ensures Critical(pc') <==> m'.lock == Some(a)
    ensures m'.lock == None ==> (m.lock == None && pc == Destroy) || (Critical(pc) && !Critical(pc'))
    ensures pc'.LinkLock? || pc'.LinkHead? || pc'.LinkWalk? ==> m'.next[id] == None && m'.prev[id] == None
  {
  }

  /** An actor's own step leaves the list as its next step needs it, and well-formed when it lets go of the mutex. */
  lemma StepKeepsOwn(m: Mem, a: Actor, id: Id, pc: Pc, m': Mem, pc': Pc)
    requires Holds(m, a, id, pc) && (m.lock == None ==> Links(m)) && MemStep(m, a, id, pc, m', pc')
    ensures pc' != Idle ==> Holds(m', a, id, pc')
    ensures m'.lock == None ==> Links(m')
  {
    OwnPointers(m, a, id, pc, m', pc');
    if pc.LinkLock? || pc.UnlinkLock? || pc.Destroy? {
      OutsideStep(m, a, id, pc, m', pc');
    } else if pc.LinkHead? || pc.LinkWalk? || pc.LinkBack? || pc.LinkUnlock? {
      LinkStep(m, a, id, pc, m', pc');
    } else {
      UnlinkStep(m, a, id, pc, m', pc');
    }
  }

  /** Destroying a stream that is not in the list disturbs nobody in the critical section. */
  lemma DestroyKeepsMidList(m: Mem, id: Id, id2: Id, pc2: Pc)
    requires MidList(m, id2, pc2) && id !in m.list
    ensures MidList(Freed(m, id), id2, pc2)
  {
    match pc2 {
      case LinkBack(cur) => DestroyKeepsWired(m, id, Nexts(m.list), Prevs(m.list)[|m.list| - 1 := None]);
      case UnlinkPrev => DestroyKeepsWired(m, id, Nexts(m.list), PrevsPast(m.list, Pos(m.list, id2)));
      case UnlinkHead =>
        DestroyKeepsWired(m, id, NextsPast(m.list, Pos(m.list, id2)), PrevsPast(m.list, Pos(m.list, id2)));
      case _ => DestroyKeepsWired(m, id, Nexts(m.list), Prevs(m.list));
    }
  }

  lemma OnlyDestroyBeside(m: Mem, a: Actor, id: Id, pc: Pc, m': Mem, pc': Pc, b: Actor)
    requires MemStep(m, a, id, pc, m', pc') && a != b && (Critical(pc) <==> m.lock == Some(a)) && m.lock == Some(b)
    ensures pc == Destroy && m' == Freed(m, id)
  {
  }

  lemma LockOfOther(m: Mem, a: Actor, id: Id, pc: Pc, m': Mem, pc': Pc, b: Actor)
    requires MemStep(m, a, id, pc, m', pc') && a != b && (Critical(pc) <==> m.lock == Some(a))
    ensures m'.lock == Some(b) <==> m.lock == Some(b)
  {
  }

  lemma OtherInside(m: Mem, a: Actor, id: Id, pc: Pc, m': Mem, pc': Pc, b: Actor, id2: Id, pc2: Pc)
    requires MemStep(m, a, id, pc, m', pc') && a != b
    requires (Critical(pc) <==> m.lock == Some(a)) && (id in m.list <==> Linked(pc))
    requires (Critical(pc2) <==> m.lock == Some(b)) && (Critical(pc2) ==> MidList(m, id2, pc2))
    ensures (Critical(pc2) <==> m'.lock == Some(b)) && (Critical(pc2) ==> MidList(m', id2, pc2))
  {
    LockOfOther(m, a, id, pc, m', pc', b);
    if Critical(pc2) {
      OnlyDestroyBeside(m, a, id, pc, m', pc', b);
      DestroyKeepsMidList(m, id, id2, pc2);
    }
  }

  lemma StepLeavesOthers(m: Mem, a: Actor, id: Id, pc: Pc, m': Mem, pc': Pc, x: Id)
    requires Holds(m, a, id, pc) && MemStep(m, a, id, pc, m', pc') && x != id
    ensures Untouched(m, m', x)
  {
    if pc.LinkLock? || pc.LinkHead? || pc.LinkWalk? || pc.LinkBack? || pc.LinkUnlock? {
      LinkLeavesOthers(m, a, id, pc, m', pc', x);
    } else {
      UnlinkLeavesOthers(m, a, id, pc, m', pc', x);
    }
  }

  lemma HoldsAccesses(m: Mem, a: Actor, id: Id, pc: Pc)
    requires Holds(m, a, id, pc)
    ensures Accesses(m, id, pc)
  {
    match pc {
      case LinkWalk(cur) => Walked(m, cur);
      case UnlinkNext => NextBypassed(m, id);
      case UnlinkPrev => PrevBypassed(m, id);
      case _ =>
    }
  }

  /** A step by one actor leaves every other actor what it relies on. */
  lemma StepKeepsOther(m: Mem, a: Actor, id: Id, pc: Pc, m': Mem, pc': Pc, b: Actor, id2: Id, pc2: Pc)
    requires Holds(m, a, id, pc) && Holds(m, b, id2, pc2) && a != b && id != id2
    requires MemStep(m, a, id, pc, m', pc')
    ensures Holds(m', b, id2, pc2)
  {
    OtherInside(m, a, id, pc, m', pc', b, id2, pc2);
    StepLeavesOthers(m, a, id, pc, m', pc', id2);
  }
}
