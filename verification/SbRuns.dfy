/** The invariant of the whole server, kept by every step, and what it means for every run. */
module SbRuns {
  import opened CStrings
  import opened SbList
  import opened SbLinks
  import opened SbSteps

  predicate InThread(pc: Pc) {
    pc.Run? || pc.UnlinkLock? || pc.UnlinkNext? || pc.UnlinkPrev? || pc.UnlinkHead? || pc.UnlinkUnlock? || pc.Destroy?
  }

  /** The streams somebody still has to unlink or destroy. */
  function Owned(s: Sys): set<Id> {
    s.conns.Keys + if s.mainPc == Idle then {} else {s.mainId}
  }

  /** Exactly the owned streams are allocated, and every other stream ever accepted was destroyed once. */
  ghost predicate Records(s: Sys) {
    && s.mem.next.Keys == Owned(s) && s.mem.prev.Keys == Owned(s) && Owned(s) <= s.used
    && (forall id | id in s.mem.list :: id in Owned(s))
    && s.mem.destroyed.Keys == s.used - Owned(s)
    && (forall id | id in s.mem.destroyed :: s.mem.destroyed[id] == 1)
  }

  /** The mutex is held by an actor inside its critical section, or the list is well-formed. */
  ghost predicate Guarded(s: Sys) {
    match s.mem.lock
    case None => Links(s.mem)
    case Some(Main) => Critical(s.mainPc)
    case Some(Conn(id)) => id in s.conns
  }

  ghost predicate MainHolds(s: Sys) {
    s.mainPc != Idle ==> Holds(s.mem, Main, s.mainId, s.mainPc) && s.mainId !in s.conns && s.mainPc != Run
  }

  ghost predicate ThreadsHold(m: Mem, conns: map<Id, Pc>) {
    forall id | id in conns :: Holds(m, Conn(id), id, conns[id]) && InThread(conns[id])
  }

  ghost predicate Inv(s: Sys) {
    MainHolds(s) && ThreadsHold(s.mem, s.conns) && Guarded(s) && Records(s)
  }

  lemma DestroyRecords(m: Mem, a: Actor, id: Id, pc: Pc, m': Mem, pc': Pc)
    requires MemStep(m, a, id, pc, m', pc') && (id in m.list <==> Linked(pc))
    ensures pc == Destroy <==> pc' == Idle
    ensures pc == Destroy ==> id !in m.list && m'.list == m.list && id !in m'.next && id !in m'.prev
    ensures m'.destroyed == if pc == Destroy then OnceMore(m.destroyed, id) else m.destroyed
  {
  }

  /** The same streams in memory and in the list, except that id is gone or now in the list. */
  ghost predicate SameRecords(m: Mem, m': Mem, id: Id, gone: bool) {
    && m'.next.Keys == (if gone then m.next.Keys - {id} else m.next.Keys)
    && m'.prev.Keys == (if gone then m.prev.Keys - {id} else m.prev.Keys)
    && (forall x | x in m'.list :: x in m.list || (x == id && !gone))
    && (gone ==> id !in m'.list)
  }

  lemma UntouchedRecords(m: Mem, m': Mem, id: Id, gone: bool)
    requires Allocated(m, id) && forall x | x != id :: Untouched(m, m', x)
    requires if gone then id !in m'.list && id !in m'.next && id !in m'.prev else Allocated(m', id)
    ensures SameRecords(m, m', id, gone)
  {
    assert forall x | x != id && x in m'.list :: Untouched(m, m', x);
    assert forall x | x != id && (x in m.next || x in m'.next) :: Untouched(m, m', x);
    assert forall x | x != id && (x in m.prev || x in m'.prev) :: Untouched(m, m', x);
  }

  lemma StepKeepsRecords(m: Mem, a: Actor, id: Id, pc: Pc, m': Mem, pc': Pc)
    requires Holds(m, a, id, pc) && MemStep(m, a, id, pc, m', pc')
    ensures SameRecords(m, m', id, pc' == Idle)
  {
    OwnPointers(m, a, id, pc, m', pc');
    DestroyRecords(m, a, id, pc, m', pc');
    forall x | x != id ensures Untouched(m, m', x) {
      StepLeavesOthers(m, a, id, pc, m', pc', x);
    }
    UntouchedRecords(m, m', id, pc' == Idle);
  }

  lemma RecordsKept(s: Sys, s': Sys, id: Id, gone: bool)
    requires Records(s) && id in Owned(s) && SameRecords(s.mem, s'.mem, id, gone) && s'.used == s.used
    requires Owned(s') == (if gone then Owned(s) - {id} else Owned(s))
    requires s'.mem.destroyed == if gone then OnceMore(s.mem.destroyed, id) else s.mem.destroyed
    ensures Records(s')
  {
  }

  lemma ThreadsKept(m: Mem, a: Actor, id: Id, pc: Pc, m': Mem, pc': Pc, conns: map<Id, Pc>)
    requires Holds(m, a, id, pc) && MemStep(m, a, id, pc, m', pc')
    requires ThreadsHold(m, conns) && id !in conns && (a.Conn? ==> a.id == id)
    ensures ThreadsHold(m', conns)
  {
    forall x | x in conns ensures Holds(m', Conn(x), x, conns[x]) {
      StepKeepsOther(m, a, id, pc, m', pc', Conn(x), x, conns[x]);
    }
  }

  /** The mutex changes hands only from nobody to the stepping actor and back. */
  lemma LockHands(m: Mem, a: Actor, id: Id, pc: Pc, m': Mem, pc': Pc)
    requires MemStep(m, a, id, pc, m', pc') && (Critical(pc) <==> m.lock == Some(a))
    ensures m'.lock == m.lock || (m'.lock == Some(a) && Critical(pc')) || m'.lock == None
  {
  }

  lemma MainKeeps(s: Sys, s': Sys)
    requires Inv(s) && s.mainPc != Idle && s.mainPc != Create && MainStep(s, s')
    ensures Inv(s')
  {
    var m, m', id, pc, pc' := s.mem, s'.mem, s.mainId, s.mainPc, s'.mainPc;
    StepKeepsOwn(m, Main, id, pc, m', pc');
    StepKeepsRecords(m, Main, id, pc, m', pc');
    ThreadsKept(m, Main, id, pc, m', pc', s.conns);
    LockHands(m, Main, id, pc, m', pc');
    DestroyRecords(m, Main, id, pc, m', pc');
    RecordsKept(s, s', id, pc' == Idle);
  }

  lemma ThreadsJoin(m: Mem, conns: map<Id, Pc>, id: Id, pc: Pc)
    requires ThreadsHold(m, conns - {id}) && Holds(m, Conn(id), id, pc) && InThread(pc)
    ensures ThreadsHold(m, conns[id := pc])
  {
    forall x | x in conns[id := pc] ensures Holds(m, Conn(x), x, conns[id := pc][x]) && InThread(conns[id := pc][x]) {
      if x != id { assert x in conns - {id}; }
    }
  }

  lemma ThreadStays(m: Mem, a: Actor, id: Id, pc: Pc, m': Mem, pc': Pc)
    requires MemStep(m, a, id, pc, m', pc') && InThread(pc)
    ensures pc != Destroy ==> InThread(pc')
  {
  }

  lemma ThreadStepThreads(m: Mem, id: Id, pc: Pc, m': Mem, pc': Pc, conns: map<Id, Pc>)
    requires Holds(m, Conn(id), id, pc) && MemStep(m, Conn(id), id, pc, m', pc') && InThread(pc)
    requires ThreadsHold(m, conns) && (pc' != Idle ==> Holds(m', Conn(id), id, pc'))
    ensures ThreadsHold(m', if pc' == Idle then conns - {id} else conns[id := pc'])
  {
    assert ThreadsHold(m, conns - {id});
    ThreadsKept(m, Conn(id), id, pc, m', pc', conns - {id});
    DestroyRecords(m, Conn(id), id, pc, m', pc');
    ThreadStays(m, Conn(id), id, pc, m', pc');
    if pc' != Idle { ThreadsJoin(m', conns, id, pc'); }
  }

  lemma ThreadOwned(s: Sys, id: Id, s': Sys, pc': Pc)
    requires id in s.conns && (s.mainPc != Idle ==> s.mainId != id)
    requires s' == s.(mem := s'.mem, conns := if pc' == Idle then s.conns - {id} else s.conns[id := pc'])
    ensures id in Owned(s) && Owned(s') == if pc' == Idle then Owned(s) - {id} else Owned(s)
  {
  }

  lemma ThreadStepRecords(s: Sys, id: Id, s': Sys, pc': Pc)
    requires Records(s) && id in s.conns && Holds(s.mem, Conn(id), id, s.conns[id])
    requires s.mainPc != Idle ==> s.mainId != id
    requires MemStep(s.mem, Conn(id), id, s.conns[id], s'.mem, pc')
    requires s' == s.(mem := s'.mem, conns := if pc' == Idle then s.conns - {id} else s.conns[id := pc'])
    ensures Records(s')
  {
    StepKeepsRecords(s.mem, Conn(id), id, s.conns[id], s'.mem, pc');
    DestroyRecords(s.mem, Conn(id), id, s.conns[id], s'.mem, pc');
    ThreadOwned(s, id, s', pc');
    RecordsKept(s, s', id, pc' == Idle);
  }

  lemma ThreadStepGuard(s: Sys, id: Id, s': Sys, pc': Pc)
    requires Guarded(s) && id in s.conns && MemStep(s.mem, Conn(id), id, s.conns[id], s'.mem, pc')
    requires Critical(s.conns[id]) <==> s.mem.lock == Some(Conn(id))
    requires s' == s.(mem := s'.mem, conns := if pc' == Idle then s.conns - {id} else s.conns[id := pc'])
    requires s'.mem.lock == None ==> Links(s'.mem)
    ensures Guarded(s')
  {
    LockHands(s.mem, Conn(id), id, s.conns[id], s'.mem, pc');
  }

  lemma ThreadKeeps(s: Sys, id: Id, s': Sys, pc': Pc)
    requires Inv(s) && id in s.conns && MemStep(s.mem, Conn(id), id, s.conns[id], s'.mem, pc')
    requires s' == s.(mem := s'.mem, conns := if pc' == Idle then s.conns - {id} else s.conns[id := pc'])
    ensures Inv(s')
  {
    var m, m', pc := s.mem, s'.mem, s.conns[id];
    StepKeepsOwn(m, Conn(id), id, pc, m', pc');
    ThreadStepThreads(m, id, pc, m', pc', s.conns);
    ThreadStepRecords(s, id, s', pc');
    ThreadStepGuard(s, id, s', pc');
    if s.mainPc != Idle {
      StepKeepsOther(m, Conn(id), id, pc, m', pc', Main, s.mainId, s.mainPc);
    }
  }

  /** A new stream, at a place in memory no link points to. */
  lemma NewKeepsWired(m: Mem, id: Id, nexts: seq<Option<Id>>, prevs: seq<Option<Id>>)
    requires Wired(m, nexts, prevs) && id !in m.next && id !in m.prev
    ensures Wired(m.(next := m.next[id := None], prev := m.prev[id := None]), nexts, prevs)
  {
    forall i | 0 <= i < |m.list| ensures m.list[i] != id { assert m.list[i] in m.next; }
  }

  lemma NewKeepsMidList(m: Mem, id: Id, id2: Id, pc2: Pc)
    requires MidList(m, id2, pc2) && id !in m.next && id !in m.prev
    ensures MidList(m.(next := m.next[id := None], prev := m.prev[id := None]), id2, pc2)
  {
    match pc2 {
      case LinkBack(cur) => NewKeepsWired(m, id, Nexts(m.list), Prevs(m.list)[|m.list| - 1 := None]);
      case UnlinkPrev => NewKeepsWired(m, id, Nexts(m.list), PrevsPast(m.list, Pos(m.list, id2)));
      case UnlinkHead => NewKeepsWired(m, id, NextsPast(m.list, Pos(m.list, id2)), PrevsPast(m.list, Pos(m.list, id2)));
      case _ => NewKeepsWired(m, id, Nexts(m.list), Prevs(m.list));
    }
  }

  lemma NewKeepsHolds(m: Mem, id: Id, a: Actor, id2: Id, pc2: Pc)
    requires Holds(m, a, id2, pc2) && id !in m.next && id !in m.prev
    ensures Holds(m.(next := m.next[id := None], prev := m.prev[id := None]), a, id2, pc2)
  {
    if Critical(pc2) { NewKeepsMidList(m, id, id2, pc2); }
  }

  lemma AcceptKeeps(s: Sys, id: Id, m': Mem)
    requires Inv(s) && s.mainPc == Idle && id !in s.used
    requires m' == s.mem.(next := s.mem.next[id := None], prev := s.mem.prev[id := None])
    ensures Inv(s.(mem := m', mainPc := LinkLock, mainId := id, used := s.used + {id}))
  {
    assert id !in s.mem.next && id !in s.mem.prev;
    forall x | x in s.conns ensures Holds(m', Conn(x), x, s.conns[x]) {
      NewKeepsHolds(s.mem, id, Conn(x), x, s.conns[x]);
    }
    if s.mem.lock == None { NewKeepsWired(s.mem, id, Nexts(s.mem.list), Prevs(s.mem.list)); }
  }

  lemma HandedOver(m: Mem, id: Id)
    requires Holds(m, Main, id, Create) && m.lock != Some(Conn(id))
    ensures Holds(m, Conn(id), id, Run) && Holds(m, Main, id, UnlinkLock)
  {
  }

  lemma SameOwned(s: Sys, s': Sys)
    requires Records(s) && s'.mem == s.mem && s'.used == s.used && Owned(s') == Owned(s)
    ensures Records(s')
  {
  }

  lemma ThreadJoins(m: Mem, conns: map<Id, Pc>, id: Id)
    requires ThreadsHold(m, conns) && id !in conns && Holds(m, Main, id, Create) && m.lock != Some(Conn(id))
    ensures ThreadsHold(m, conns[id := Run])
  {
    HandedOver(m, id);
    assert conns - {id} == conns;
    ThreadsJoin(m, conns, id, Run);
  }

  /** The new thread takes the stream over from the accept loop. */
  lemma CreateKeeps(s: Sys)
    requires Inv(s) && s.mainPc == Create
    ensures Inv(s.(mainPc := Idle, conns := s.conns[s.mainId := Run]))
  {
    var s' := s.(mainPc := Idle, conns := s.conns[s.mainId := Run]);
    ThreadJoins(s.mem, s.conns, s.mainId);
    SameOwned(s, s');
    assert Guarded(s');
  }

  /** When no thread can be created the accept loop unlinks the stream itself. */
  lemma CreateFailKeeps(s: Sys)
    requires Inv(s) && s.mainPc == Create
    ensures Inv(s.(mainPc := UnlinkLock))
  {
    HandedOver(s.mem, s.mainId);
    assert Records(s.(mainPc := UnlinkLock));
  }

  lemma EventDone(m: Mem, a: Actor, id: Id)
    requires Holds(m, a, id, Run)
    ensures Holds(m, a, id, UnlinkLock)
  {
  }

  lemma EventKeeps(s: Sys, id: Id)
    requires Inv(s) && id in s.conns && s.conns[id] == Run
    ensures Inv(s.(conns := s.conns[id := UnlinkLock]))
  {
    EventDone(s.mem, Conn(id), id);
    assert ThreadsHold(s.mem, s.conns - {id});
    ThreadsJoin(s.mem, s.conns, id, UnlinkLock);
    assert Records(s.(conns := s.conns[id := UnlinkLock]));
  }

  lemma NextKeeps(s: Sys, s': Sys)
    requires Inv(s) && Next(s, s')
    ensures Inv(s')
  {
    if MainStep(s, s') {
      if s.mainPc == Idle {
        if s' != s { AcceptKeeps(s, s'.mainId, s'.mem); }
      } else if s.mainPc == Create {
        CreateKeeps(s);
        CreateFailKeeps(s);
      } else {
        MainKeeps(s, s');
      }
    } else {
      var id :| ConnStep(s, id, s');
      if s.conns[id] == Run {
        EventKeeps(s, id);
      } else {
        ThreadKeeps(s, id, s', if s.conns[id] == Destroy then Idle else s'.conns[id]);
      }
    }
  }

  ghost predicate Execution(states: seq<Sys>) {
    && states != [] && Init(states[0])
    && forall i | 0 <= i < |states| - 1 :: Next(states[i], states[i + 1])
  }

  lemma {:induction false} ExecutionKeeps(states: seq<Sys>)
    requires Execution(states)
    ensures Inv(states[|states| - 1])
  {
    var n := |states|;
    if n > 1 {
      ExecutionKeeps(states[..n - 1]);
      assert Next(states[n - 2], states[n - 1]);
      NextKeeps(states[n - 2], states[n - 1]);
    }
  }

  /**
    In every run, whenever nobody holds the mutex the list is well-formed and holds exactly the streams not yet
    unlinked.
   */
  lemma ListIsSound(states: seq<Sys>, id: Id)
    requires Execution(states)
    ensures var s := states[|states| - 1];
            && (s.mem.lock == None ==> Links(s.mem))
            && (id in s.mem.list <==>
                (s.mainPc != Idle && id == s.mainId && Linked(s.mainPc)) || (id in s.conns && Linked(s.conns[id])))
  {
    ExecutionKeeps(states);
  }

  /**
    In every run, a stream is destroyed at most once, and exactly once if it was accepted and nobody holds it
    any more.
   */
  lemma DestroyedOnce(states: seq<Sys>, id: Id)
    requires Execution(states)
    ensures var s := states[|states| - 1];
            && (id in s.mem.destroyed <==> id in s.used && id !in s.conns && (s.mainPc == Idle || id != s.mainId))
            && (id in s.mem.destroyed ==> s.mem.destroyed[id] == 1 && id !in s.mem.list && !Allocated(s.mem, id))
  {
    ExecutionKeeps(states);
  }

  /** At some point of the run the thread of stream id was serving it. */
  ghost predicate Served(states: seq<Sys>, id: Id) {
    exists k | 0 <= k < |states| :: id in states[k].conns && states[k].conns[id] == Run
  }

  /** At some point of the run the accept loop had to take stream id back. */
  ghost predicate TakenBack(states: seq<Sys>, id: Id) {
    exists k | 0 <= k < |states| :: states[k].mainPc == UnlinkLock && states[k].mainId == id
  }

  lemma EarlierToo(states: seq<Sys>, n: nat, id: Id)
    requires n <= |states|
    ensures Served(states[..n], id) ==> Served(states, id)
    ensures TakenBack(states[..n], id) ==> TakenBack(states, id)
  {
    if Served(states[..n], id) {
      var k :| 0 <= k < n && id in states[..n][k].conns && states[..n][k].conns[id] == Run;
      assert states[k] == states[..n][k];
    }
    if TakenBack(states[..n], id) {
      var k :| 0 <= k < n && states[..n][k].mainPc == UnlinkLock && states[..n][k].mainId == id;
      assert states[k] == states[..n][k];
    }
  }

  predicate TakingBack(pc: Pc) {
    pc.UnlinkLock? || pc.UnlinkNext? || pc.UnlinkPrev? || pc.UnlinkHead? || pc.UnlinkUnlock? || pc.Destroy?
  }

  /** What the run says of stream id in its last state s. */
  ghost predicate HasHistory(states: seq<Sys>, s: Sys, id: Id) {
    && (id in s.conns ==> Served(states, id))
    && (TakingBack(s.mainPc) && id == s.mainId ==> TakenBack(states, id))
    && (id in s.mem.destroyed ==> Served(states, id) || TakenBack(states, id))
  }

  /** Where a stream is after one step, by where it was before. */
  lemma OneStep(s: Sys, s': Sys, id: Id)
    requires Next(s, s')
    ensures id in s'.conns ==> id in s.conns || s'.conns[id] == Run
    ensures TakingBack(s'.mainPc) && id == s'.mainId ==>
              s'.mainPc == UnlinkLock || (TakingBack(s.mainPc) && id == s.mainId)
    ensures id in s'.mem.destroyed ==>
              id in s.mem.destroyed || id in s.conns || (TakingBack(s.mainPc) && id == s.mainId)
  {
  }

  /** In every run, a thread gets its stream to serve it, and only then, or when it got no thread, it is destroyed. */
  lemma {:induction false} ServedBeforeDestroyed(states: seq<Sys>, id: Id)
    requires Execution(states)
    ensures HasHistory(states, states[|states| - 1], id)
  {
    var n := |states| - 1;
    var s' := states[n];
    if n > 0 {
      var s := states[n - 1];
      assert states[..n][n - 1] == s;
      ServedBeforeDestroyed(states[..n], id);
      EarlierToo(states, n, id);
      assert Next(states[n - 1], states[n]);
      OneStep(s, s', id);
      assert states[n] == s';
    }
  }

  /** Every stream whose links the step at pc reads or writes, spelled out: its own, and its neighbours'. */
  predicate Touchable(m: Mem, id: Id, pc: Pc) {
    && id in m.next && id in m.prev
    && (pc.LinkWalk? ==> pc.cur in m.next && pc.cur in m.prev)
    && (pc == UnlinkNext && m.next[id].Some? ==> m.next[id].value in m.next && m.next[id].value in m.prev)
    && (pc == UnlinkPrev && m.prev[id].Some? ==> m.prev[id].value in m.next && m.prev[id].value in m.prev)
  }

  /** In every run, no actor's next step touches memory that was freed. */
  lemma NothingFreedIsTouched(states: seq<Sys>)
    requires Execution(states)
    ensures var s := states[|states| - 1];
            && (s.mainPc != Idle ==> Accesses(s.mem, s.mainId, s.mainPc) && Touchable(s.mem, s.mainId, s.mainPc))
            && (forall id | id in s.conns :: Accesses(s.mem, id, s.conns[id]) && Touchable(s.mem, id, s.conns[id]))
  {
    ExecutionKeeps(states);
    var s := states[|states| - 1];
    if s.mainPc != Idle { HoldsAccesses(s.mem, Main, s.mainId, s.mainPc); }
    forall id | id in s.conns ensures Accesses(s.mem, id, s.conns[id]) {
      HoldsAccesses(s.mem, Conn(id), id, s.conns[id]);
    }
  }

  lemma OneInside(states: seq<Sys>, id: Id, id2: Id)
    requires Execution(states)
    ensures var s := states[|states| - 1];
            && (id in s.conns && id2 in s.conns && Critical(s.conns[id]) && Critical(s.conns[id2]) ==> id == id2)
            && (id in s.conns && Critical(s.conns[id]) && s.mainPc != Idle ==> !Critical(s.mainPc))
  {
    ExecutionKeeps(states);
  }
}
