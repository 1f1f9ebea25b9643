/** The kernel's threads as a state machine: thread table, ready queue, running thread and blocked joins.
    Every action is one stretch of kernel code between two context switches. */
module Threads {

  const THREAD_MAX: nat := 16
  const INT_MAX: nat := 0x7fff_ffff
  const NONE: int := -1

  datatype Runstate = New | Ready | Exited

  /** Where a saved thread continues: in its own code, or inside the waiting loop of `thread_join`. */
  datatype Cont = InUser | InJoin(slot: nat, asked: int)

  datatype Thread = Thread(tid: nat, runstate: Runstate, exitStatus: int, cont: Cont)

  /** What a run has shown so far: exits, and the values returned by joins with the thread they closed. */
  datatype Event = Exit(tid: nat, status: int) | Return(asked: int, reaped: nat, status: int)

  /** `cur` is NONE until the first switch. `members` is the process's thread list. */
  datatype State = State(
    tcb: seq<Thread>,
    ready: seq<nat>,
    members: seq<nat>,
    cur: int,
    nextTid: nat,
    log: seq<Event>)

  /** A zeroed thread structure. */
  const Zeroed: Thread := Thread(0, New, 0, InUser)

  function Zeros(n: nat): (z: seq<Thread>)
    ensures |z| == n && forall i :: 0 <= i < n ==> z[i] == Zeroed
  {
    if n == 0 then [] else Zeros(n - 1) + [Zeroed]
  }

  const Boot: State := State(Zeros(THREAD_MAX), [], [], NONE, 1, [])

  predicate Runnable(t: Thread) {
    t.tid != 0 && t.runstate != Exited
  }

  // ---------------------------------------------------------------------------------------------
  // Steps

  /** First slot at or after `i` that carries `tid`; the table's length when there is none. */
  function SlotOf(tcb: seq<Thread>, tid: int, i: nat): (slot: nat)
    requires i <= |tcb|
    ensures i <= slot <= |tcb|
    ensures slot < |tcb| ==> tcb[slot].tid == tid
    ensures forall j :: i <= j < slot ==> tcb[j].tid != tid
    decreases |tcb| - i
  {
    if i == |tcb| || tcb[i].tid == tid then i else SlotOf(tcb, tid, i + 1)
  }

  predicate Sized(s: State) {
    && |s.tcb| == THREAD_MAX
    && (s.cur == NONE || 0 <= s.cur < THREAD_MAX)
    && (forall k :: 0 <= k < |s.ready| ==> s.ready[k] < THREAD_MAX)
  }

  function Create(s: State): State
    requires Sized(s)
  {
    var slot := SlotOf(s.tcb, 0, 0);
    if slot == THREAD_MAX then s
    else s.(tcb := s.tcb[slot := s.tcb[slot].(tid := s.nextTid, runstate := New)],
            nextTid := s.nextTid + 1,
            members := [slot] + s.members,
            ready := s.ready + [slot])
  }

  /** The queue as `schedule` leaves it before choosing: the running thread goes to its end unless it exited. */
  function Requeued(s: State): seq<nat>
    requires Sized(s)
  {
    if s.cur != NONE && s.tcb[s.cur].runstate == Ready then s.ready + [s.cur] else s.ready
  }

  function Schedule(s: State): State
    requires Sized(s) && Requeued(s) != []
  {
    var q := Requeued(s);
    assert q[0] < THREAD_MAX;
    s.(tcb := s.tcb[q[0] := s.tcb[q[0]].(runstate := Ready)], ready := q[1..], cur := q[0])
  }

  function SetRunstate(s: State, r: Runstate): State
    requires Sized(s) && s.cur != NONE
  {
    s.(tcb := s.tcb[s.cur := s.tcb[s.cur].(runstate := r)])
  }

  function Yield(s: State): State
    requires Sized(s) && s.cur != NONE
  {
    Schedule(SetRunstate(s, Ready))
  }

  function Dying(s: State, status: int): State
    requires Sized(s) && s.cur != NONE
  {
    s.(tcb := s.tcb[s.cur := s.tcb[s.cur].(exitStatus := status, runstate := Exited)],
       log := s.log + [Exit(s.tcb[s.cur].tid, status)])
  }

  function Without(q: seq<nat>, x: nat): seq<nat> {
    if q == [] then [] else if q[0] == x then q[1..] else [q[0]] + Without(q[1..], x)
  }

  /** `thread_close`: out of both lists, and the slot is zeroed. */
  function Close(s: State, slot: nat): State
    requires Sized(s) && slot < THREAD_MAX
  {
    s.(tcb := s.tcb[slot := Zeroed], members := Without(s.members, slot), ready := Without(s.ready, slot))
  }

  function SetCont(s: State, c: Cont): State
    requires Sized(s) && s.cur != NONE
  {
    s.(tcb := s.tcb[s.cur := s.tcb[s.cur].(cont := c)])
  }

  predicate Waiting(s: State) {
    Sized(s) && s.cur != NONE && s.tcb[s.cur].cont.InJoin? && s.tcb[s.cur].cont.slot < THREAD_MAX
  }

  /** The running thread's join is over: it closes the slot, and returns what it read there. */
  function Reap(s: State): State
    requires Waiting(s)
  {
    var c := s.tcb[s.cur].cont;
    var t := s.tcb[c.slot];
    var closed := Close(s, c.slot);
    closed.(tcb := closed.tcb[s.cur := closed.tcb[s.cur].(cont := InUser)],
            log := s.log + [Return(c.asked, t.tid, t.exitStatus)])
  }

  /** One turn of the loop in `thread_join`. */
  function Poll(s: State): State
    requires Waiting(s)
  {
    if s.tcb[s.tcb[s.cur].cont.slot].runstate == Exited then Reap(s) else Yield(s)
  }

  /** `thread_join` up to the first switch or its return; an unknown tid fails and changes nothing. */
  function Join(s: State, asked: int): State
    requires Sized(s) && s.cur != NONE
  {
    var slot := SlotOf(s.tcb, asked, 0);
    if slot == THREAD_MAX then s else Poll(SetCont(s, InJoin(slot, asked)))
  }

  datatype Action =
    | ACreate
    | AStart
    | AYield
    | APreempt
    | AExit(status: int)
    | AJoin(tid: int)
    | APoll

  predicate AtUser(s: State) {
    Sized(s) && s.cur != NONE && s.tcb[s.cur].cont == InUser
  }

  predicate Enabled(s: State, a: Action)
    requires Sized(s)
  {
    match a
    case ACreate => (s.cur == NONE || AtUser(s)) && (s.nextTid < INT_MAX || SlotOf(s.tcb, 0, 0) == THREAD_MAX)
    case AStart => s.cur == NONE && s.ready != []
    case AExit(_) => AtUser(s) && s.ready != []
    case APoll => Waiting(s)
    case _ => AtUser(s)
  }

  function Act(s: State, a: Action): State
    requires Sized(s) && Enabled(s, a)
  {
    match a
    case ACreate => Create(s)
    case AStart => Schedule(s)
    case AYield => Yield(s)
    case APreempt => Yield(s)
    case AExit(status) => Schedule(Dying(s, status))
    case AJoin(tid) => Join(s, tid)
    case APoll => Poll(s)
  }

  ghost predicate Run(s: State, actions: seq<Action>, t: State)
    decreases |actions|
  {
    if actions == [] then s == t
    else Sized(s) && Enabled(s, actions[0]) && Run(Act(s, actions[0]), actions[1..], t)
  }

  // ---------------------------------------------------------------------------------------------
  // The invariant

  /** No duplicates, and exactly the runnable threads other than the running one. */
  ghost predicate QueueOk(s: State)
    requires Sized(s)
  {
    && (forall j, k :: 0 <= j < k < |s.ready| ==> s.ready[j] != s.ready[k])
    && (forall i: nat :: i in s.ready <==> i < THREAD_MAX && i != s.cur && Runnable(s.tcb[i]))
  }

  /** The thread list holds exactly the occupied slots, newest first. */
  ghost predicate MembersOk(s: State)
    requires Sized(s)
  {
    && (forall i: nat :: i in s.members <==> i < THREAD_MAX && s.tcb[i].tid != 0)
    && NewestFirst(s.tcb, s.members)
  }

  ghost predicate NewestFirst(tcb: seq<Thread>, m: seq<nat>)
    requires forall i: nat :: i in m ==> i < |tcb|
  {
    assert m != [] ==> m[0] in m && forall i: nat :: i in m[1..] ==> i in m;
    m == [] || ((forall i: nat :: i in m[1..] ==> tcb[i].tid < tcb[m[0]].tid) && NewestFirst(tcb, m[1..]))
  }

  ghost predicate TableOk(s: State)
    requires Sized(s)
  {
    && s.nextTid >= 1
    && (s.cur != NONE ==> s.tcb[s.cur].tid != 0 && s.tcb[s.cur].runstate != New)
    && (forall i :: 0 <= i < THREAD_MAX ==>
          && s.tcb[i].tid < s.nextTid
          && (s.tcb[i].tid == 0 ==> s.tcb[i] == Zeroed)
          && (s.tcb[i].cont != InUser ==> s.tcb[i].runstate == Ready && s.tcb[i].cont.slot < THREAD_MAX))
    && (forall i, j :: 0 <= i < j < THREAD_MAX && s.tcb[i].tid != 0 ==> s.tcb[i].tid != s.tcb[j].tid)
  }

  ghost predicate HasExited(log: seq<Event>, tid: int) {
    exists k :: 0 <= k < |log| && log[k].Exit? && log[k].tid == tid
  }

  ghost predicate Reaped(log: seq<Event>, tid: int) {
    exists k :: 0 <= k < |log| && log[k].Return? && log[k].reaped == tid
  }

  /** What event `e` promises about the events `log` before it. A thread exits once; a join returns a status
      its thread exited with, that thread was not closed before, and it is the one asked for exactly when
      a thread was asked for that nobody had closed. */
  ghost predicate EventOk(log: seq<Event>, e: Event) {
    match e
    case Exit(tid, _) => !HasExited(log, tid)
    case Return(asked, reaped, status) =>
      && Exit(reaped, status) in log
      && !Reaped(log, reaped)
      && (reaped == asked <==> asked > 0 && !Reaped(log, asked))
  }

  ghost predicate LogOk(log: seq<Event>) {
    forall k :: 0 <= k < |log| ==> EventOk(log[..k], log[k])
  }

  /** The table agrees with the history. */
  ghost predicate HistoryOk(s: State)
    requires Sized(s)
  {
    && LogOk(s.log)
    && (forall k :: 0 <= k < |s.log| ==> (if s.log[k].Exit? then s.log[k].tid else s.log[k].reaped) < s.nextTid)
    && (forall i :: 0 <= i < THREAD_MAX && s.tcb[i].tid != 0 ==>
          && !Reaped(s.log, s.tcb[i].tid)
          && (if s.tcb[i].runstate == Exited then Exit(s.tcb[i].tid, s.tcb[i].exitStatus) in s.log
              else !HasExited(s.log, s.tcb[i].tid)))
    && (forall i :: 0 <= i < THREAD_MAX && s.tcb[i].cont != InUser ==> JoinOk(s, s.tcb[i].cont))
  }

  /** A blocked join still points at the thread asked for, unless somebody else closed that thread. */
  ghost predicate JoinOk(s: State, c: Cont)
    requires Sized(s) && c.InJoin?
  {
    && c.slot < THREAD_MAX
    && c.asked < s.nextTid
    && (c.asked > 0 ==> s.tcb[c.slot].tid == c.asked || Reaped(s.log, c.asked))
  }

  /** Holds also when the running thread has just exited and the next one is not chosen yet. */
  ghost predicate Consistent(s: State) {
    Sized(s) && TableOk(s) && QueueOk(s) && MembersOk(s) && HistoryOk(s)
  }

  ghost predicate Inv(s: State) {
    Consistent(s) && (s.cur != NONE ==> s.tcb[s.cur].runstate == Ready)
  }

  // ---------------------------------------------------------------------------------------------
  // Every step keeps it

  lemma BootInv()
    ensures Inv(Boot)
  {
  }

  lemma CreateTable(s: State)
    requires Consistent(s)
    ensures var t := Create(s); Sized(t) && TableOk(t) && QueueOk(t)
  {
    hide HistoryOk, MembersOk;
    var t := Create(s);
    var slot := SlotOf(s.tcb, 0, 0);
    if slot < THREAD_MAX {
      assert slot !in s.ready;
      assert forall i: nat :: i in t.ready <==> i in s.ready || i == slot;
    }
  }

  lemma {:induction false} NewestFirstKept(a: seq<Thread>, b: seq<Thread>, m: seq<nat>)
    requires forall i: nat :: i in m ==> i < |a| && i < |b| && a[i].tid == b[i].tid
    requires NewestFirst(a, m)
    ensures NewestFirst(b, m)
  {
    if m != [] {
      assert forall i: nat :: i in m[1..] ==> i in m;
      NewestFirstKept(a, b, m[1..]);
    }
  }

  lemma CreateMembers(s: State)
    requires Consistent(s)
    ensures Sized(Create(s)) && MembersOk(Create(s))
  {
    hide HistoryOk, QueueOk;
    CreateTable(s);
    var t := Create(s);
    var slot := SlotOf(s.tcb, 0, 0);
    if slot < THREAD_MAX {
      assert slot !in s.members;
      NewestFirstKept(s.tcb, t.tcb, s.members);
      assert t.members[1..] == s.members;
    }
  }

  lemma CreateHistory(s: State)
    requires Consistent(s)
    ensures Sized(Create(s)) && HistoryOk(Create(s))
  {
    hide QueueOk, MembersOk, LogOk;
    CreateTable(s);
    var slot := SlotOf(s.tcb, 0, 0);
    assert !Reaped(s.log, s.nextTid) && !HasExited(s.log, s.nextTid);
  }

  lemma CreateInv(s: State)
    requires Inv(s)
    ensures Inv(Create(s))
  {
    hide HistoryOk, QueueOk, MembersOk;
    CreateTable(s);
    CreateMembers(s);
    CreateHistory(s);
  }

  /** No duplicates, and exactly the runnable threads. */
  ghost predicate HoldsRunnable(tcb: seq<Thread>, q: seq<nat>)
    requires |tcb| == THREAD_MAX
  {
    && (forall j, k :: 0 <= j < k < |q| ==> q[j] != q[k])
    && (forall i: nat :: i in q <==> i < THREAD_MAX && Runnable(tcb[i]))
  }

  lemma RequeuedRunnable(s: State)
    requires Consistent(s)
    ensures Sized(s) && HoldsRunnable(s.tcb, Requeued(s))
  {
    hide HistoryOk, MembersOk;
  }

  /** The queue without its head. */
  lemma BehindHead(tcb: seq<Thread>, q: seq<nat>, rest: seq<nat>)
    requires |tcb| == THREAD_MAX && HoldsRunnable(tcb, q) && q != [] && rest == q[1..]
    ensures q[0] < THREAD_MAX && Runnable(tcb[q[0]])
    ensures forall j, k :: 0 <= j < k < |rest| ==> rest[j] != rest[k]
    ensures forall i: nat :: i in rest <==> i < THREAD_MAX && i != q[0] && Runnable(tcb[i])
  {
    hide Runnable;
    assert q[0] in q;
    assert q == [q[0]] + rest;
    assert forall k :: 0 <= k < |rest| ==> rest[k] == q[k + 1];
  }

  lemma ScheduleQueue(s: State)
    requires Consistent(s) && Requeued(s) != []
    ensures Sized(Schedule(s)) && QueueOk(Schedule(s)) && Requeued(s)[0] < THREAD_MAX && Runnable(s.tcb[Requeued(s)[0]])
  {
    RequeuedRunnable(s);
    hide Consistent, Requeued, HoldsRunnable;
    BehindHead(s.tcb, Requeued(s), Schedule(s).ready);
  }

  /** Marking a runnable thread as ready changes nothing else the invariant speaks of. */
  lemma MarkReady(s: State, t: State, i: nat)
    requires Sized(s) && Sized(t) && HistoryOk(s) && MembersOk(s)
    requires i < THREAD_MAX && Runnable(s.tcb[i]) && t.tcb == s.tcb[i := s.tcb[i].(runstate := Ready)]
    requires t.members == s.members && t.log == s.log && t.nextTid == s.nextTid
    ensures HistoryOk(t) && MembersOk(t)
  {
    hide LogOk, Reaped, HasExited;
    NewestFirstKept(s.tcb, t.tcb, s.members);
    hide NewestFirst;
  }

  lemma ScheduleInv(s: State)
    requires Consistent(s) && Requeued(s) != []
    ensures Inv(Schedule(s))
  {
    ScheduleQueue(s);
    hide QueueOk, MembersOk, HistoryOk, Requeued;
    MarkReady(s, Schedule(s), Requeued(s)[0]);
  }

  lemma LogAppend(log: seq<Event>, e: Event)
    requires LogOk(log) && EventOk(log, e)
    ensures LogOk(log + [e])
  {
    hide EventOk;
    var l := log + [e];
    forall k | 0 <= k < |l|
      ensures EventOk(l[..k], l[k])
    {
      assert l[..k] == log[..k];
      assert k == |log| ==> log[..k] == log;
    }
  }

  lemma HistoryAppend(log: seq<Event>, e: Event, tid: int)
    ensures Reaped(log + [e], tid) <==> Reaped(log, tid) || (e.Return? && e.reaped == tid)
    ensures HasExited(log + [e], tid) <==> HasExited(log, tid) || (e.Exit? && e.tid == tid)
  {
    var l := log + [e];
    assert l[|log|] == e;
    assert forall k :: 0 <= k < |log| ==> l[k] == log[k];
  }

  lemma DyingHistory(s: State, status: int)
    requires Inv(s) && AtUser(s)
    ensures Sized(Dying(s, status)) && HistoryOk(Dying(s, status))
  {
    hide QueueOk, MembersOk, LogOk;
    var t := Dying(s, status);
    var e := Exit(s.tcb[s.cur].tid, status);
    LogAppend(s.log, e);
    forall tid ensures Reaped(t.log, tid) <==> Reaped(s.log, tid) {
      HistoryAppend(s.log, e, tid);
    }
    forall tid ensures HasExited(t.log, tid) <==> HasExited(s.log, tid) || tid == e.tid {
      HistoryAppend(s.log, e, tid);
    }
    hide Reaped, HasExited;
    assert t.log[|s.log|] == e;
  }

  lemma DyingTable(s: State, status: int)
    requires Inv(s) && AtUser(s)
    ensures var t := Dying(s, status); Sized(t) && TableOk(t) && QueueOk(t)
  {
    hide HistoryOk, MembersOk;
  }

  lemma DyingMembers(s: State, status: int)
    requires Inv(s) && AtUser(s)
    ensures Sized(Dying(s, status)) && MembersOk(Dying(s, status))
  {
    hide HistoryOk, QueueOk;
    NewestFirstKept(s.tcb, Dying(s, status).tcb, s.members);
    hide NewestFirst;
  }

  lemma DyingConsistent(s: State, status: int)
    requires Inv(s) && AtUser(s)
    ensures Consistent(Dying(s, status))
  {
    DyingTable(s, status);
    DyingHistory(s, status);
    DyingMembers(s, status);
    hide HistoryOk, TableOk, QueueOk, MembersOk;
  }

  lemma SetContHistory(s: State, slot: nat, asked: int)
    requires Inv(s) && AtUser(s)
    requires slot < THREAD_MAX && s.tcb[slot].tid == asked
    ensures var t := SetCont(s, InJoin(slot, asked)); Sized(t) && HistoryOk(t)
  {
    hide LogOk, Reaped, HasExited, QueueOk, MembersOk;
  }

  lemma SetContInv(s: State, slot: nat, asked: int)
    requires Inv(s) && AtUser(s)
    requires slot < THREAD_MAX && s.tcb[slot].tid == asked
    ensures Inv(SetCont(s, InJoin(slot, asked)))
  {
    SetContHistory(s, slot, asked);
    NewestFirstKept(s.tcb, SetCont(s, InJoin(slot, asked)).tcb, s.members);
    hide HistoryOk, NewestFirst;
  }

  // ---------------------------------------------------------------------------------------------
  // Closing a thread

  lemma {:induction false} WithoutSame(q: seq<nat>, x: nat)
    requires x !in q
    ensures Without(q, x) == q
  {
    if q != [] {
      WithoutSame(q[1..], x);
    }
  }

  lemma {:induction false} WithoutNewest(tcb: seq<Thread>, m: seq<nat>, x: nat)
    requires (forall i: nat :: i in m ==> i < |tcb|) && NewestFirst(tcb, m)
    ensures forall i: nat :: i in Without(m, x) <==> i in m && i != x
    ensures NewestFirst(tcb, Without(m, x))
  {
    if m != [] {
      var rest := m[1..];
      assert m == [m[0]] + rest;
      assert forall i: nat :: i in rest ==> i in m;
      WithoutNewest(tcb, rest, x);
      if m[0] != x {
        assert Without(m, x)[1..] == Without(rest, x);
      }
    }
  }

  /** The running thread waits for a slot whose thread has exited. */
  ghost predicate CanReap(s: State) {
    Inv(s) && Waiting(s) && s.tcb[s.tcb[s.cur].cont.slot].runstate == Exited
  }

  lemma ReapLists(s: State)
    requires CanReap(s)
    ensures var t := Reap(s); Sized(t) && QueueOk(t) && MembersOk(t)
  {
    hide HistoryOk, NewestFirst;
    ReapMembers(s);
    WithoutSame(s.ready, s.tcb[s.cur].cont.slot);
    hide MembersOk;
  }

  lemma ReapMembers(s: State)
    requires CanReap(s)
    ensures Sized(Reap(s)) && MembersOk(Reap(s)) && s.tcb[s.cur].cont.slot !in s.ready
  {
    hide HistoryOk;
    var t, x := Reap(s), s.tcb[s.cur].cont.slot;
    assert x != s.cur && s.tcb[x].tid != 0;
    WithoutSame(s.ready, x);
    hide QueueOk;
    WithoutNewest(s.tcb, s.members, x);
    NewestFirstKept(s.tcb, t.tcb, t.members);
    hide NewestFirst;
  }

  /** The event of a join that is over. */
  function ReturnOf(s: State): Event
    requires Waiting(s)
  {
    var c := s.tcb[s.cur].cont;
    Return(c.asked, s.tcb[c.slot].tid, s.tcb[c.slot].exitStatus)
  }

  lemma ReapLog(s: State)
    requires CanReap(s)
    ensures LogOk(Reap(s).log)
    ensures forall tid :: Reaped(Reap(s).log, tid) <==> Reaped(s.log, tid) || tid == ReturnOf(s).reaped
    ensures forall tid :: HasExited(Reap(s).log, tid) <==> HasExited(s.log, tid)
  {
    hide QueueOk, MembersOk, LogOk;
    var e := ReturnOf(s);
    assert JoinOk(s, s.tcb[s.cur].cont);
    LogAppend(s.log, e);
    hide Consistent;
    forall tid ensures Reaped(Reap(s).log, tid) <==> Reaped(s.log, tid) || tid == e.reaped {
      HistoryAppend(s.log, e, tid);
    }
    forall tid ensures HasExited(Reap(s).log, tid) <==> HasExited(s.log, tid) {
      HistoryAppend(s.log, e, tid);
    }
  }

  /** What a join that is over leaves of the table. */
  lemma ReapTable(s: State)
    requires CanReap(s)
    ensures Sized(Reap(s)) && Reap(s).log == s.log + [ReturnOf(s)]
    ensures Reap(s).nextTid == s.nextTid && Reap(s).cur == s.cur
    ensures ReturnOf(s).reaped == s.tcb[s.tcb[s.cur].cont.slot].tid < s.nextTid
    ensures forall i :: 0 <= i < THREAD_MAX ==>
      Reap(s).tcb[i] ==
        if i == s.tcb[s.cur].cont.slot then Zeroed
        else if i == s.cur then s.tcb[i].(cont := InUser)
        else s.tcb[i]
  {
    ReapLists(s);
    hide QueueOk, MembersOk, HistoryOk;
  }

  lemma ReapHistory(s: State)
    requires CanReap(s)
    ensures Sized(Reap(s)) && HistoryOk(Reap(s))
  {
    ReapTable(s);
    ReapLog(s);
    hide QueueOk, MembersOk, LogOk, Reaped, HasExited, Reap;
  }

  lemma ReapInv(s: State)
    requires CanReap(s)
    ensures Inv(Reap(s))
  {
    hide QueueOk, MembersOk, HistoryOk, Reap;
    ReapTable(s);
    ReapLists(s);
    ReapHistory(s);
  }
}
