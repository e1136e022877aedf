/**
  Every stream that is accepted is brought to its end: as long as somebody owns a stream, somebody can step, and every
  step but that of accepting a connection brings the whole server closer to owning none.
 */
module SbProgress {
  import opened CStrings
  import opened Seqs
  import opened SbList
  import opened SbLinks
  import opened SbSteps
  import opened SbRuns

  /** Any step but accepting a connection, or waiting for one. */
  ghost predicate WorkStep(s: Sys, s': Sys) {
    (s.mainPc != Idle && MainStep(s, s')) || exists id :: ConnStep(s, id, s')
  }

  // ---- somebody can step ----

  lemma CanStep(m: Mem, a: Actor, id: Id, pc: Pc) returns (m': Mem, pc': Pc)
    requires Holds(m, a, id, pc) && pc != Create && pc != Run
    requires pc.LinkLock? || pc.UnlinkLock? ==> m.lock == None
    ensures MemStep(m, a, id, pc, m', pc')
  {
    HoldsAccesses(m, a, id, pc);
    match pc {
      case LinkLock => m', pc' := m.(lock := Some(a)), LinkHead;
      case LinkHead =>
        if m.head.Some? { m', pc' := m, LinkWalk(m.head.value); }
        else { m', pc' := m.(head := Some(id), list := m.list + [id]), LinkUnlock; }
      case LinkWalk(cur) =>
        if m.next[cur].Some? { m', pc' := m, LinkWalk(m.next[cur].value); }
        else { m', pc' := m.(next := m.next[cur := Some(id)], list := m.list + [id]), LinkBack(cur); }
      case LinkBack(cur) => m', pc' := m.(prev := m.prev[id := Some(cur)]), LinkUnlock;
      case LinkUnlock => m', pc' := m.(lock := None), Create;
      case UnlinkLock => m', pc' := m.(lock := Some(a)), UnlinkNext;
      case UnlinkNext =>
        m', pc' := if m.next[id].Some? then m.(prev := m.prev[m.next[id].value := m.prev[id]]) else m, UnlinkPrev;
      case UnlinkPrev =>
        m', pc' := if m.prev[id].Some? then m.(next := m.next[m.prev[id].value := m.next[id]]) else m, UnlinkHead;
      case UnlinkHead =>
        m' := (if m.head == Some(id) then m.(head := m.next[id]) else m).(list := Without(m.list, id));
        pc' := UnlinkUnlock;
      case UnlinkUnlock => m', pc' := m.(lock := None), Destroy;
      case Destroy =>
        m', pc' := Freed(m, id), Idle;
    }
  }

  lemma MainCanStep(s: Sys) returns (s': Sys)
    requires MainHolds(s) && s.mainPc != Idle && (s.mainPc.LinkLock? || s.mainPc.UnlinkLock? ==> s.mem.lock == None)
    ensures WorkStep(s, s')
  {
    if s.mainPc == Create {
      s' := s.(mainPc := UnlinkLock);
    } else {
      var m', pc' := CanStep(s.mem, Main, s.mainId, s.mainPc);
      s' := s.(mem := m', mainPc := pc');
    }
    assert MainStep(s, s');
  }

  lemma ThreadCanStep(s: Sys, id: Id) returns (s': Sys)
    requires ThreadsHold(s.mem, s.conns) && id in s.conns && (s.conns[id].UnlinkLock? ==> s.mem.lock == None)
    ensures WorkStep(s, s')
  {
    var pc := s.conns[id];
    if pc == Run {
      s' := s.(conns := s.conns[id := UnlinkLock]);
    } else {
      var m', pc' := CanStep(s.mem, Conn(id), id, pc);
      DestroyRecords(s.mem, Conn(id), id, pc, m', pc');
      s' := if pc == Destroy then s.(mem := m', conns := s.conns - {id})
        else s.(mem := m', conns := s.conns[id := pc']);
    }
    assert ConnStep(s, id, s');
  }

  /** As long as a stream is owned, the owner of the mutex, or with the mutex free any owner of a stream, can step. */
  lemma SomebodyCanStep(s: Sys) returns (s': Sys)
    requires Inv(s) && Owned(s) != {}
    ensures WorkStep(s, s')
  {
    match s.mem.lock {
      case Some(Main) => s' := MainCanStep(s);
      case Some(Conn(id)) => s' := ThreadCanStep(s, id);
      case None =>
        if s.mainPc != Idle {
          s' := MainCanStep(s);
        } else {
          var id :| id in s.conns;
          s' := ThreadCanStep(s, id);
        }
    }
  }

  // ---- and every step counts ----

  /** How many steps an actor at pc has at most before it. Walking the list takes as many as streams are left in it. */
  ghost function Ahead(list: seq<Id>, pc: Pc): nat {
    match pc
    case Idle => 0
    case LinkLock => |list| + 13
    case LinkHead => |list| + 12
    case LinkWalk(cur) => if cur in list then |list| - 1 - Pos(list, cur) + 12 else 12
    case LinkBack(_) => 11
    case LinkUnlock => 10
    case Create => 9
    case Run => 8
    case UnlinkLock => 7
    case UnlinkNext => 6
    case UnlinkPrev => 5
    case UnlinkHead => 4
    case UnlinkUnlock => 3
    case Destroy => 2
  }

  ghost function AllAhead(conns: map<Id, Pc>): nat
    decreases |conns|
  {
    if conns == map[] then 0
    else
      var id :| id in conns;
      Ahead([], conns[id]) + AllAhead(conns - {id})
  }

  ghost function Measure(s: Sys): nat {
    Ahead(s.mem.list, s.mainPc) + AllAhead(s.conns)
  }

  lemma {:induction false} AheadOfOne(conns: map<Id, Pc>, id: Id)
    requires id in conns
    ensures AllAhead(conns) == Ahead([], conns[id]) + AllAhead(conns - {id})
    decreases |conns|
  {
    var k :| k in conns && AllAhead(conns) == Ahead([], conns[k]) + AllAhead(conns - {k});
    if k != id {
      AheadOfOne(conns - {k}, id);
      AheadOfOne(conns - {id}, k);
      assert (conns - {k}) - {id} == (conns - {id}) - {k};
    }
  }

  lemma AheadAfter(conns: map<Id, Pc>, id: Id, pc: Pc)
    ensures AllAhead(conns[id := pc]) == Ahead([], pc) + AllAhead(conns - {id})
  {
    AheadOfOne(conns[id := pc], id);
    assert conns[id := pc] - {id} == conns - {id};
  }

  lemma NextIsCloser(m: Mem, cur: Id)
    requires Links(m) && cur in m.list
    ensures cur in m.next
    ensures m.next[cur].Some? ==>
              m.next[cur].value in m.list && Pos(m.list, m.next[cur].value) == Pos(m.list, cur) + 1
  {
    var k := Pos(m.list, cur);
    assert m.next[m.list[k]] == Nexts(m.list)[k];
    if k + 1 < |m.list| {
      assert m.list[Pos(m.list, m.list[k + 1])] == m.list[k + 1];
    }
  }

  lemma HeadIsFirst(m: Mem)
    requires Links(m) && m.head.Some?
    ensures m.head.value in m.list && Pos(m.list, m.head.value) == 0
  {
    assert m.list[Pos(m.list, m.list[0])] == m.list[0];
  }

  /** An actor's own step brings it closer to its end. */
  lemma OwnStepFalls(m: Mem, a: Actor, id: Id, pc: Pc, m': Mem, pc': Pc)
    requires Holds(m, a, id, pc) && MemStep(m, a, id, pc, m', pc')
    ensures Ahead(m'.list, pc') < Ahead(m.list, pc)
  {
    if pc.LinkHead? && m.head.Some? {
      HeadIsFirst(m);
    } else if pc.LinkWalk? {
      NextIsCloser(m, pc.cur);
    }
  }

  /** A thread's step does not make the accept loop's way longer. */
  lemma ThreadStepKeepsMain(m: Mem, id: Id, pc: Pc, m': Mem, pc': Pc, mainId: Id, mainPc: Pc)
    requires Holds(m, Conn(id), id, pc) && MemStep(m, Conn(id), id, pc, m', pc') && InThread(pc)
    requires mainPc != Idle ==> Holds(m, Main, mainId, mainPc)
    ensures Ahead(m'.list, mainPc) <= Ahead(m.list, mainPc)
  {
    if pc.UnlinkHead? {
      Unlinked(m, id);
      WithoutIsShorter(m.list, id);
    }
  }

  lemma {:induction false} WithoutIsShorter(s: seq<Id>, id: Id)
    ensures |Without(s, id)| <= |s|
  {
    if s != [] && s[0] != id {
      WithoutIsShorter(s[1..], id);
    }
  }

  /** What is ahead of a thread does not depend on the list. */
  lemma SameAhead(list: seq<Id>, pc: Pc)
    requires InThread(pc) || pc == Idle
    ensures Ahead(list, pc) == Ahead([], pc)
  {
  }

  /** A thread's step, as far as the threads go. */
  lemma ThreadsFall(m: Mem, id: Id, pc: Pc, m': Mem, pc': Pc, conns: map<Id, Pc>)
    requires id in conns && conns[id] == pc && Holds(m, Conn(id), id, pc) && InThread(pc)
    requires MemStep(m, Conn(id), id, pc, m', pc')
    ensures AllAhead(if pc' == Idle then conns - {id} else conns[id := pc']) < AllAhead(conns)
  {
    AheadOfOne(conns, id);
    OwnStepFalls(m, Conn(id), id, pc, m', pc');
    DestroyRecords(m, Conn(id), id, pc, m', pc');
    ThreadStays(m, Conn(id), id, pc, m', pc');
    SameAhead(m.list, pc);
    SameAhead(m'.list, pc');
    if pc' != Idle { AheadAfter(conns, id, pc'); }
  }

  lemma ThreadFalls(s: Sys, id: Id, s': Sys, pc': Pc)
    requires ThreadsHold(s.mem, s.conns) && MainHolds(s) && id in s.conns
    requires MemStep(s.mem, Conn(id), id, s.conns[id], s'.mem, pc')
    requires s' == s.(mem := s'.mem, conns := if pc' == Idle then s.conns - {id} else s.conns[id := pc'])
    ensures Measure(s') < Measure(s)
  {
    ThreadsFall(s.mem, id, s.conns[id], s'.mem, pc', s.conns);
    ThreadStepKeepsMain(s.mem, id, s.conns[id], s'.mem, pc', s.mainId, s.mainPc);
  }

  lemma EventFalls(s: Sys, id: Id)
    requires id in s.conns && s.conns[id] == Run
    ensures Measure(s.(conns := s.conns[id := UnlinkLock])) < Measure(s)
  {
    AheadOfOne(s.conns, id);
    AheadAfter(s.conns, id, UnlinkLock);
  }

  lemma MainFalls(s: Sys, s': Sys)
    requires Inv(s) && s.mainPc != Idle && MainStep(s, s')
    ensures Measure(s') < Measure(s)
  {
    if s.mainPc == Create {
      AheadAfter(s.conns, s.mainId, Run);
      assert s.conns - {s.mainId} == s.conns;
    } else {
      OwnStepFalls(s.mem, Main, s.mainId, s.mainPc, s'.mem, s'.mainPc);
    }
  }

  lemma WorkFalls(s: Sys, s': Sys)
    requires Inv(s) && WorkStep(s, s')
    ensures Inv(s') && Measure(s') < Measure(s)
  {
    NextKeeps(s, s');
    if s.mainPc != Idle && MainStep(s, s') {
      MainFalls(s, s');
    } else {
      var id :| ConnStep(s, id, s');
      if s.conns[id] == Run {
        EventFalls(s, id);
      } else {
        ThreadFalls(s, id, s', if s.conns[id] == Destroy then Idle else s'.conns[id]);
      }
    }
  }

  // ---- what it means for runs ----

  /** One step of work after the other, from s on. */
  ghost predicate Working(s: Sys, states: seq<Sys>)
    decreases |states|
  {
    states == [] || (WorkStep(s, states[0]) && Working(states[0], states[1..]))
  }

  /** From any reachable state, no more steps than the measure can be made without accepting another connection. */
  lemma {:induction false} WorkIsBounded(s: Sys, states: seq<Sys>)
    requires Inv(s) && Working(s, states)
    ensures |states| <= Measure(s)
    decreases |states|
  {
    if states != [] {
      WorkFalls(s, states[0]);
      WorkIsBounded(states[0], states[1..]);
    }
  }

  /** Nobody has work to do. */
  ghost predicate Quiet(s: Sys) {
    forall s' :: !WorkStep(s, s')
  }

  /** In every run: if nobody can step any more, every stream ever accepted has been destroyed, once. */
  lemma QuietMeansDone(states: seq<Sys>, id: Id)
    requires Execution(states) && Quiet(states[|states| - 1])
    ensures var s := states[|states| - 1];
            id in s.used ==> id in s.mem.destroyed && s.mem.destroyed[id] == 1 && id !in s.mem.list
  {
    var s := states[|states| - 1];
    ExecutionKeeps(states);
    DestroyedOnce(states, id);
    if Owned(s) != {} {
      var s' := SomebodyCanStep(s);
    }
    assert id !in Owned(s);
  }
}
