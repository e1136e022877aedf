/**
  The stream list of sandbird.c under every interleaving of the accept loop and the connection threads.

  A step is one statement of sb_stream_link or sb_stream_unlink, so a thread can be interrupted in the middle of
  either; only the mutex keeps others out. `list` and `destroyed` are what the proof keeps about the
  run: the streams in list order, and how often each has been destroyed.
 */
module SbList {
  import opened CStrings

  type Id = nat

  datatype Actor = Main | Conn(id: Id)

  /** Where an actor is with its stream. `cur` is the local st2 of sb_stream_link. */
  datatype Pc =
    | Idle
    | LinkLock | LinkHead | LinkWalk(cur: Id) | LinkBack(cur: Id) | LinkUnlock
    | Create | Run
    | UnlinkLock | UnlinkNext | UnlinkPrev | UnlinkHead | UnlinkUnlock
    | Destroy

  /**
    Shared memory: the links of all allocated streams, the server's head pointer, the mutex; then the proof's
    records.
   */
  datatype Mem = Mem(
    head: Option<Id>,
    next: map<Id, Option<Id>>,
    prev: map<Id, Option<Id>>,
    lock: Option<Actor>,
    list: seq<Id>,
    destroyed: map<Id, nat>)

  /** conns holds the connection threads that have not exited; `used` every stream ever accepted. */
  datatype Sys = Sys(mem: Mem, mainPc: Pc, mainId: Id, conns: map<Id, Pc>, used: set<Id>)

  predicate Allocated(m: Mem, id: Id) {
    id in m.next && id in m.prev
  }

  /** The pointer is null or to memory that has not been freed. */
  predicate Deref(m: Mem, p: Option<Id>) {
    p.Some? ==> Allocated(m, p.value)
  }

  function Without(s: seq<Id>, id: Id): seq<Id> {
    if s == [] then [] else if s[0] == id then s[1..] else [s[0]] + Without(s[1..], id)
  }

  function OnceMore(counts: map<Id, nat>, id: Id): map<Id, nat> {
    counts[id := (if id in counts then counts[id] else 0) + 1]
  }

  /** Memory once stream id has been destroyed. */
  function Freed(m: Mem, id: Id): Mem {
    m.(next := m.next - {id}, prev := m.prev - {id}, destroyed := OnceMore(m.destroyed, id))
  }

  /** All memory the step at pc with stream id reads or writes is allocated. */
  predicate Accesses(m: Mem, id: Id, pc: Pc) {
    match pc
    case LinkWalk(cur) => Allocated(m, cur)
    case UnlinkNext => Allocated(m, id) && Deref(m, m.next[id])
    case UnlinkPrev => Allocated(m, id) && Deref(m, m.prev[id])
    case _ => Allocated(m, id)
  }

  /** One step of linking, unlinking or destroying stream id by actor a. */
  predicate MemStep(m: Mem, a: Actor, id: Id, pc: Pc, m': Mem, pc': Pc) {
    && Accesses(m, id, pc)
    && match pc
       case LinkLock => m.lock == None && m' == m.(lock := Some(a)) && pc' == LinkHead
       case LinkHead =>
         if m.head.Some? then m' == m && pc' == LinkWalk(m.head.value)
         else m' == m.(head := Some(id), list := m.list + [id]) && pc' == LinkUnlock
       case LinkWalk(cur) =>
         if m.next[cur].Some? then m' == m && pc' == LinkWalk(m.next[cur].value)
         else m' == m.(next := m.next[cur := Some(id)], list := m.list + [id]) && pc' == LinkBack(cur)
       case LinkBack(cur) => m' == m.(prev := m.prev[id := Some(cur)]) && pc' == LinkUnlock
       case LinkUnlock => m' == m.(lock := None) && pc' == Create
       case UnlinkLock => m.lock == None && m' == m.(lock := Some(a)) && pc' == UnlinkNext
       case UnlinkNext =>
         && pc' == UnlinkPrev
         && m' == if m.next[id].Some? then m.(prev := m.prev[m.next[id].value := m.prev[id]]) else m
       case UnlinkPrev =>
         && pc' == UnlinkHead
         && m' == if m.prev[id].Some? then m.(next := m.next[m.prev[id].value := m.next[id]]) else m
       case UnlinkHead =>
         && pc' == UnlinkUnlock
         && m' == (if m.head == Some(id) then m.(head := m.next[id]) else m).(list := Without(m.list, id))
       case UnlinkUnlock => m' == m.(lock := None) && pc' == Destroy
       case Destroy =>
         && pc' == Idle
         && m' == Freed(m, id)
       case _ => false
  }

  /** One step of sb_poll_server. Memory for the stream and the thread may be refused. */
  predicate MainStep(s: Sys, s': Sys) {
    match s.mainPc
    case Idle =>
      || s' == s
      || (s'.mainId !in s.used
          && s' == s.(mem := s.mem.(next := s.mem.next[s'.mainId := None], prev := s.mem.prev[s'.mainId := None]),
                      mainPc := LinkLock, mainId := s'.mainId, used := s.used + {s'.mainId}))
    case Create =>
      || s' == s.(mainPc := Idle, conns := s.conns[s.mainId := Run])
      || s' == s.(mainPc := UnlinkLock)
    case pc => MemStep(s.mem, Main, s.mainId, pc, s'.mem, s'.mainPc) && s' == s.(mem := s'.mem, mainPc := s'.mainPc)
  }

  /** One step of conn_thread for stream id, whose own work is one step. It exits by leaving conns. */
  predicate ConnStep(s: Sys, id: Id, s': Sys) {
    && id in s.conns
    && if s.conns[id] == Run then s' == s.(conns := s.conns[id := UnlinkLock])
       else if s.conns[id] == Destroy then
         MemStep(s.mem, Conn(id), id, Destroy, s'.mem, Idle) && s' == s.(mem := s'.mem, conns := s.conns - {id})
       else
         && id in s'.conns && MemStep(s.mem, Conn(id), id, s.conns[id], s'.mem, s'.conns[id])
         && s' == s.(mem := s'.mem, conns := s.conns[id := s'.conns[id]])
  }

  ghost predicate Next(s: Sys, s': Sys) {
    MainStep(s, s') || exists id :: ConnStep(s, id, s')
  }

  ghost predicate Init(s: Sys) {
    s == Sys(Mem(None, map[], map[], None, [], map[]), Idle, 0, map[], {})
  }
}
