/** What every run of the thread machine keeps: the queue, who runs next and when, and what joins return. */
module ThreadRuns {
  import opened Threads

  // ---------------------------------------------------------------------------------------------
  // Safety

  lemma YieldInv(s: State)
    requires Inv(s) && s.cur != NONE
    ensures SetRunstate(s, Ready) == s
    ensures Inv(Yield(s))
  {
    assert s.tcb[s.cur := s.tcb[s.cur].(runstate := Ready)] == s.tcb;
    ScheduleInv(s);
  }

  lemma PollInv(s: State)
    requires Inv(s) && Waiting(s)
    ensures Inv(Poll(s))
  {
    if s.tcb[s.tcb[s.cur].cont.slot].runstate == Exited {
      ReapInv(s);
    } else {
      YieldInv(s);
    }
  }

  lemma JoinInv(s: State, asked: int)
    requires Inv(s) && AtUser(s)
    ensures Inv(Join(s, asked))
  {
    var slot := SlotOf(s.tcb, asked, 0);
    if slot < THREAD_MAX {
      SetContInv(s, slot, asked);
      PollInv(SetCont(s, InJoin(slot, asked)));
    }
  }

  lemma ExitInv(s: State, status: int)
    requires Inv(s) && AtUser(s) && s.ready != []
    ensures Inv(Schedule(Dying(s, status)))
  {
    DyingConsistent(s, status);
    ScheduleInv(Dying(s, status));
  }

  lemma ActInv(s: State, a: Action)
    requires Inv(s) && Enabled(s, a)
    ensures Inv(Act(s, a))
  {
    match a
    case ACreate => CreateInv(s);
    case AStart => ScheduleInv(s);
    case AYield => YieldInv(s);
    case APreempt => YieldInv(s);
    case AExit(status) => ExitInv(s, status);
    case AJoin(tid) => JoinInv(s, tid);
    case APoll => PollInv(s);
  }

  lemma {:induction false} RunInv(s: State, actions: seq<Action>, t: State)
    requires Inv(s) && Run(s, actions, t)
    ensures Inv(t)
    decreases |actions|
  {
    if actions != [] {
      ActInv(s, actions[0]);
      RunInv(Act(s, actions[0]), actions[1..], t);
    }
  }

  /** No thread is lost, queued twice, or run after its exit. */
  lemma QueueExact(actions: seq<Action>, t: State)
    requires Run(Boot, actions, t)
    ensures Inv(t)
    ensures forall j, k :: 0 <= j < k < |t.ready| ==> t.ready[j] != t.ready[k]
    ensures forall i: nat :: i in t.ready <==> i < THREAD_MAX && i != t.cur && Runnable(t.tcb[i])
    ensures t.cur != NONE ==> t.cur !in t.ready && Runnable(t.tcb[t.cur])
  {
    BootInv();
    RunInv(Boot, actions, t);
  }

  // ---------------------------------------------------------------------------------------------
  // Bounded waiting

  /** Whether the action ends in a context switch. */
  predicate Switches(s: State, a: Action)
    requires Sized(s) && Enabled(s, a)
  {
    match a
    case ACreate => false
    case AJoin(tid) => var slot := SlotOf(s.tcb, tid, 0); slot < THREAD_MAX && s.tcb[slot].runstate != Exited
    case APoll => s.tcb[s.tcb[s.cur].cont.slot].runstate != Exited
    case _ => true
  }

  ghost function SwitchCount(s: State, actions: seq<Action>, t: State): nat
    requires Run(s, actions, t)
    decreases |actions|
  {
    if actions == [] then 0
    else (if Switches(s, actions[0]) then 1 else 0) + SwitchCount(Act(s, actions[0]), actions[1..], t)
  }

  /** A switch takes the head of the queue; anything else only adds at its end. */
  ghost predicate QueueStep(s: State, t: State, switches: bool) {
    if switches then s.ready != [] ==> t.cur == s.ready[0] && s.ready[1..] <= t.ready
    else t.cur == s.cur && s.ready <= t.ready
  }

  lemma JoinQueue(s: State, tid: int)
    requires Inv(s) && AtUser(s)
    ensures QueueStep(s, Join(s, tid), Switches(s, AJoin(tid)))
  {
    hide Inv, Poll;
    var slot := SlotOf(s.tcb, tid, 0);
    if slot < THREAD_MAX {
      SetContInv(s, slot, tid);
      PollQueue(SetCont(s, InJoin(slot, tid)));
    }
  }

  lemma YieldQueue(s: State)
    requires Inv(s) && s.cur != NONE
    ensures QueueStep(s, Yield(s), true)
  {
    hide HistoryOk, MembersOk;
    YieldInv(s);
  }

  lemma ExitQueue(s: State, status: int)
    requires Inv(s) && AtUser(s) && s.ready != []
    ensures QueueStep(s, Schedule(Dying(s, status)), true)
  {
  }

  lemma ActQueue(s: State, a: Action)
    requires Inv(s) && Enabled(s, a)
    ensures QueueStep(s, Act(s, a), Switches(s, a))
  {
    hide Consistent, Yield, Join, Poll, Dying;
    match a
    case AJoin(tid) => JoinQueue(s, tid);
    case APoll => PollQueue(s);
    case AYield => YieldQueue(s);
    case APreempt => YieldQueue(s);
    case AExit(status) => ExitQueue(s, status);
    case _ =>
  }

  lemma PollQueue(s: State)
    requires Inv(s) && Waiting(s)
    ensures QueueStep(s, Poll(s), s.tcb[s.tcb[s.cur].cont.slot].runstate != Exited)
  {
    hide HistoryOk, MembersOk;
    var x := s.tcb[s.cur].cont.slot;
    if s.tcb[x].runstate == Exited {
      WithoutSame(s.ready, x);
    } else {
      YieldQueue(s);
    }
  }

  /** The thread at index `k` moves up one place with every switch and runs after exactly `k + 1` of them,
      whatever the threads do meanwhile. */
  lemma {:induction false} BoundedWaiting(s: State, actions: seq<Action>, t: State, k: nat)
    requires Inv(s) && Run(s, actions, t) && k < |s.ready|
    ensures var n := SwitchCount(s, actions, t);
      && (n <= k ==> k - n < |t.ready| && t.ready[k - n] == s.ready[k])
      && (n == k + 1 ==> t.cur == s.ready[k])
    decreases |actions|
  {
    hide Act, Inv, Switches;
    if actions != [] {
      var s1 := Act(s, actions[0]);
      ActInv(s, actions[0]);
      ActQueue(s, actions[0]);
      if !Switches(s, actions[0]) {
        assert s1.ready[k] == s.ready[k];
        BoundedWaiting(s1, actions[1..], t, k);
      } else if k > 0 {
        assert s1.ready[k - 1] == s.ready[1..][k - 1] == s.ready[k];
        BoundedWaiting(s1, actions[1..], t, k - 1);
      } else if SwitchCount(s1, actions[1..], t) == 0 {
        NoSwitchKeepsCurrent(s1, actions[1..], t);
      }
    }
  }

  lemma {:induction false} NoSwitchKeepsCurrent(s: State, actions: seq<Action>, t: State)
    requires Inv(s) && Run(s, actions, t) && SwitchCount(s, actions, t) == 0
    ensures t.cur == s.cur
    decreases |actions|
  {
    if actions != [] {
      ActInv(s, actions[0]);
      ActQueue(s, actions[0]);
      NoSwitchKeepsCurrent(Act(s, actions[0]), actions[1..], t);
    }
  }

  lemma SmallSet(a: set<nat>, n: nat)
    requires forall x :: x in a ==> x < n
    ensures |a| <= n
  {
    if n > 0 {
      SmallSet(a - {n - 1}, n - 1);
      assert a <= (a - {n - 1}) + {n - 1};
    } else {
      assert a == {};
    }
  }

  function Elements(q: seq<nat>): set<nat> {
    set x | x in q
  }

  lemma {:induction false} DistinctCount(q: seq<nat>)
    requires forall j, k :: 0 <= j < k < |q| ==> q[j] != q[k]
    ensures |Elements(q)| == |q|
  {
    if q != [] {
      DistinctCount(q[1..]);
      assert Elements(q) == {q[0]} + Elements(q[1..]);
    }
  }

  /** Once a thread runs, fewer than THREAD_MAX others wait, so no wait is longer than THREAD_MAX - 1 switches. */
  lemma QueueBound(s: State)
    requires Inv(s) && s.cur != NONE
    ensures |s.ready| <= 15
  {
    var q := s.ready + [s.cur];
    DistinctCount(q);
    assert forall x: nat :: x in q ==> x < THREAD_MAX;
    SmallSet(Elements(q), THREAD_MAX);
  }

  // ---------------------------------------------------------------------------------------------
  // Exits

  /** The initial thread takes the first slot and the first tid, and stays. */
  ghost predicate InitialStays(s: State) {
    Sized(s) && s.nextTid > 1 ==> s.tcb[0].tid == 1 && s.tcb[0].runstate != Exited
  }

  /** The initial thread leaves only through process exit, never through `thread_exit`. */
  ghost predicate InitialNeverExits(s: State, actions: seq<Action>, t: State)
    requires Run(s, actions, t)
    decreases |actions|
  {
    actions != [] ==>
      (actions[0].AExit? ==> s.tcb[s.cur].tid != 1) && InitialNeverExits(Act(s, actions[0]), actions[1..], t)
  }

  /** What happens to the thread in one slot: it stays with its tid, or it had exited and is closed;
      an exited thread keeps its status; only its own exit makes a thread exited. */
  ghost predicate SlotStep(s: State, t: State, i: nat, exits: bool)
    requires Sized(s) && Sized(t) && i < THREAD_MAX
  {
    && s.log <= t.log
    && s.nextTid <= t.nextTid
    && (t.tcb[i].tid == s.tcb[i].tid || (s.tcb[i].tid == 0 && t.tcb[i].tid == s.nextTid)
        || (t.tcb[i] == Zeroed && s.tcb[i].runstate == Exited))
    && (s.tcb[i].runstate == Exited && t.tcb[i].tid != 0 ==>
          t.tcb[i].runstate == Exited && t.tcb[i].exitStatus == s.tcb[i].exitStatus)
    && (s.tcb[i].runstate != Exited && t.tcb[i].runstate == Exited ==> exits && i == s.cur)
  }

  lemma ScheduleSlot(s: State, i: nat)
    requires Consistent(s) && Requeued(s) != [] && i < THREAD_MAX
    ensures Sized(Schedule(s)) && SlotStep(s, Schedule(s), i, false)
  {
    ScheduleInv(s);
    var q := Requeued(s);
    assert q[0] in s.ready || q[0] == s.cur;
  }

  lemma PollSlot(s: State, i: nat)
    requires Inv(s) && Waiting(s) && i < THREAD_MAX
    ensures Sized(Poll(s)) && SlotStep(s, Poll(s), i, false)
  {
    PollInv(s);
    if s.tcb[s.tcb[s.cur].cont.slot].runstate != Exited {
      YieldInv(s);
      ScheduleSlot(s, i);
    }
  }

  lemma CreateSlot(s: State, i: nat)
    requires Inv(s) && i < THREAD_MAX
    ensures Sized(Create(s)) && SlotStep(s, Create(s), i, false)
  {
    hide HistoryOk, MembersOk, QueueOk;
  }

  lemma YieldSlot(s: State, i: nat)
    requires Inv(s) && s.cur != NONE && i < THREAD_MAX
    ensures Sized(Yield(s)) && SlotStep(s, Yield(s), i, false)
  {
    YieldInv(s);
    ScheduleSlot(s, i);
  }

  lemma ExitSlot(s: State, status: int, i: nat)
    requires Inv(s) && AtUser(s) && s.ready != [] && i < THREAD_MAX
    ensures var t := Schedule(Dying(s, status)); Sized(t) && SlotStep(s, t, i, true)
  {
    assert s.tcb[s.cur].runstate == Ready && s.tcb[s.cur].tid != 0;
    var d := Dying(s, status);
    DyingConsistent(s, status);
    ScheduleSlot(d, i);
    hide Consistent, Schedule, Inv;
    assert s.log <= d.log && d.nextTid == s.nextTid;
    assert i != s.cur ==> d.tcb[i] == s.tcb[i];
  }

  lemma JoinSlot(s: State, tid: int, i: nat)
    requires Inv(s) && AtUser(s) && i < THREAD_MAX
    ensures Sized(Join(s, tid)) && SlotStep(s, Join(s, tid), i, false)
  {
    hide Inv, Poll;
    var slot := SlotOf(s.tcb, tid, 0);
    if slot < THREAD_MAX {
      SetContInv(s, slot, tid);
      PollSlot(SetCont(s, InJoin(slot, tid)), i);
    }
  }

  lemma ActSlot(s: State, a: Action, i: nat)
    requires Inv(s) && Enabled(s, a) && i < THREAD_MAX
    ensures Sized(Act(s, a)) && SlotStep(s, Act(s, a), i, a.AExit?)
  {
    hide Consistent, SlotStep, Create, Schedule, Yield, Join, Poll, Dying;
    match a
    case ACreate => CreateSlot(s, i);
    case AStart => ScheduleSlot(s, i);
    case AYield => YieldSlot(s, i);
    case APreempt => YieldSlot(s, i);
    case AExit(status) => ExitSlot(s, status, i);
    case AJoin(tid) => JoinSlot(s, tid, i);
    case APoll => PollSlot(s, i);
  }

  /** A tid found after a run belongs to the slot it was issued in: it is never issued again, and the status
      of an exited thread never changes. */
  lemma {:induction false} TidAndStatusFixed(s: State, actions: seq<Action>, t: State, i: nat)
    requires Inv(s) && Run(s, actions, t) && i < THREAD_MAX
    ensures Inv(t) && s.log <= t.log && s.nextTid <= t.nextTid
    ensures 0 < t.tcb[i].tid < s.nextTid ==> t.tcb[i].tid == s.tcb[i].tid
    ensures 0 < t.tcb[i].tid < s.nextTid && s.tcb[i].runstate == Exited ==>
              t.tcb[i].runstate == Exited && t.tcb[i].exitStatus == s.tcb[i].exitStatus
    decreases |actions|
  {
    hide Act, QueueOk, MembersOk, HistoryOk;
    if actions != [] {
      ActInv(s, actions[0]);
      ActSlot(s, actions[0], i);
      TidAndStatusFixed(Act(s, actions[0]), actions[1..], t, i);
    }
  }

  lemma {:induction false} InitialStaysRun(s: State, actions: seq<Action>, t: State)
    requires Inv(s) && InitialStays(s) && Run(s, actions, t) && InitialNeverExits(s, actions, t)
    ensures Inv(t) && InitialStays(t)
    decreases |actions|
  {
    hide QueueOk, MembersOk, HistoryOk;
    if actions != [] {
      var s1 := Act(s, actions[0]);
      ActInv(s, actions[0]);
      ActSlot(s, actions[0], 0);
      if s.nextTid == 1 {
        assert s.cur == NONE;
        assert actions[0].ACreate? ==> s1.tcb[0].tid == 1;
      }
      InitialStaysRun(s1, actions[1..], t);
    }
  }

  /** While the initial thread leaves only through process exit, every other thread that exits finds
      somebody to switch to, so `schedule` never looks at an empty queue. */
  lemma ExitFindsThread(actions: seq<Action>, t: State)
    requires Run(Boot, actions, t) && InitialNeverExits(Boot, actions, t)
    ensures Inv(t) && (t.cur != NONE && t.tcb[t.cur].tid != 1 ==> 0 in t.ready && t.tcb[0].tid == 1)
  {
    BootInv();
    InitialStaysRun(Boot, actions, t);
  }

  // ---------------------------------------------------------------------------------------------
  // Joins

  lemma ExitsDiffer(log: seq<Event>, e: nat, f: nat)
    requires LogOk(log) && e < f < |log| && log[e].Exit? && log[f].Exit?
    ensures log[e].tid != log[f].tid
  {
    assert EventOk(log[..f], log[f]);
    assert log[..f][e] == log[e];
  }

  /** In every run each returned status is the one the closed thread exited with, that thread exited once
      and was closed once; and it is the thread asked for exactly when a thread was asked for (tid above
      zero) that no earlier join had closed. */
  lemma JoinReturns(actions: seq<Action>, t: State, k: nat)
    requires Run(Boot, actions, t) && k < |t.log| && t.log[k].Return?
    ensures var r := t.log[k];
      && (exists e :: 0 <= e < k && t.log[e] == Exit(r.reaped, r.status))
      && (forall e :: 0 <= e < |t.log| && t.log[e].Exit? && t.log[e].tid == r.reaped ==> t.log[e].status == r.status)
      && (forall j :: 0 <= j < k && t.log[j].Return? ==> t.log[j].reaped != r.reaped)
      && (r.reaped == r.asked <==>
            r.asked > 0 && forall j :: 0 <= j < k && t.log[j].Return? ==> t.log[j].reaped != r.asked)
  {
    BootInv();
    RunInv(Boot, actions, t);
    var r, past := t.log[k], t.log[..k];
    assert EventOk(past, r);
    var e :| 0 <= e < k && past[e] == Exit(r.reaped, r.status);
    assert t.log[e] == past[e];
    forall f | 0 <= f < |t.log| && t.log[f].Exit? && t.log[f].tid == r.reaped
      ensures f == e
    {
      if e < f {
        ExitsDiffer(t.log, e, f);
      } else if f < e {
        ExitsDiffer(t.log, f, e);
      }
    }
    assert forall j :: 0 <= j < k ==> past[j] == t.log[j];
  }

  /** Every blocked join asks for a thread nobody has closed, and no two ask for the same one. */
  ghost predicate SoleJoins(s: State)
    requires Sized(s)
  {
    && (forall i :: 0 <= i < THREAD_MAX && s.tcb[i].cont.InJoin? ==>
          s.tcb[i].cont.asked > 0 && !Reaped(s.log, s.tcb[i].cont.asked))
    && (forall i, j :: 0 <= i < j < THREAD_MAX && s.tcb[i].cont.InJoin? && s.tcb[j].cont.InJoin? ==>
          s.tcb[i].cont.asked != s.tcb[j].cont.asked)
  }

  ghost predicate ReturnsExact(log: seq<Event>) {
    forall k :: 0 <= k < |log| && log[k].Return? ==> log[k].reaped == log[k].asked
  }

  /** What a caller of `thread_join` can check: a positive tid that no blocked join has asked for. */
  predicate JoinsAlone(s: State, a: Action)
    requires Sized(s)
  {
    a.AJoin? ==> a.tid > 0 && forall i :: 0 <= i < THREAD_MAX ==> s.tcb[i].cont.InUser? || s.tcb[i].cont.asked != a.tid
  }

  ghost predicate AllJoinAlone(s: State, actions: seq<Action>, t: State)
    requires Run(s, actions, t)
    decreases |actions|
  {
    actions != [] ==> JoinsAlone(s, actions[0]) && AllJoinAlone(Act(s, actions[0]), actions[1..], t)
  }

  lemma ScheduleConts(s: State)
    requires Consistent(s) && Requeued(s) != []
    ensures Sized(Schedule(s)) && Schedule(s).log == s.log
    ensures forall i :: 0 <= i < THREAD_MAX ==> Schedule(s).tcb[i].cont == s.tcb[i].cont
  {
    ScheduleInv(s);
  }

  lemma ReapConts(s: State)
    requires CanReap(s)
    ensures Sized(Reap(s))
    ensures forall i :: 0 <= i < THREAD_MAX && Reap(s).tcb[i].cont.InJoin? ==>
      i != s.cur && Reap(s).tcb[i].cont == s.tcb[i].cont
  {
    ReapLists(s);
  }

  lemma ReapSole(s: State)
    requires CanReap(s) && SoleJoins(s) && ReturnsExact(s.log)
    ensures Sized(Reap(s)) && SoleJoins(Reap(s)) && ReturnsExact(Reap(s).log)
  {
    ReapConts(s);
    var t, c := Reap(s), s.tcb[s.cur].cont;
    var e := Return(c.asked, s.tcb[c.slot].tid, s.tcb[c.slot].exitStatus);
    assert JoinOk(s, c);
    hide Consistent;
    assert e.reaped == e.asked;
    forall tid ensures Reaped(t.log, tid) <==> Reaped(s.log, tid) || tid == c.asked {
      HistoryAppend(s.log, e, tid);
    }
    hide Reaped;
  }

  lemma YieldSole(s: State)
    requires Inv(s) && s.cur != NONE && SoleJoins(s)
    ensures Sized(Yield(s)) && SoleJoins(Yield(s)) && Yield(s).log == s.log
  {
    YieldInv(s);
    ScheduleConts(s);
    hide Reaped, Consistent, Schedule;
  }

  lemma PollSole(s: State)
    requires Inv(s) && Waiting(s) && SoleJoins(s) && ReturnsExact(s.log)
    ensures Sized(Poll(s)) && SoleJoins(Poll(s)) && ReturnsExact(Poll(s).log)
  {
    hide SoleJoins, ReturnsExact, Yield, Reap;
    if s.tcb[s.tcb[s.cur].cont.slot].runstate == Exited {
      ReapSole(s);
    } else {
      YieldSole(s);
    }
  }

  lemma JoinSole(s: State, tid: int)
    requires Inv(s) && AtUser(s) && SoleJoins(s) && ReturnsExact(s.log) && JoinsAlone(s, AJoin(tid))
    ensures Sized(Join(s, tid)) && SoleJoins(Join(s, tid)) && ReturnsExact(Join(s, tid).log)
  {
    var slot := SlotOf(s.tcb, tid, 0);
    if slot < THREAD_MAX {
      var w := SetCont(s, InJoin(slot, tid));
      assert SoleJoins(w);
      SetContInv(s, slot, tid);
      hide Inv, SoleJoins, ReturnsExact;
      PollSole(w);
    }
  }

  lemma ExitSole(s: State, status: int)
    requires Inv(s) && AtUser(s) && s.ready != [] && SoleJoins(s) && ReturnsExact(s.log)
    ensures var t := Schedule(Dying(s, status)); Sized(t) && SoleJoins(t) && ReturnsExact(t.log)
  {
    hide Reaped, Consistent, Schedule, SoleJoins;
    DyingConsistent(s, status);
    DyingSole(s, status);
    hide Dying;
    ScheduleSole(Dying(s, status));
  }

  lemma ScheduleSole(s: State)
    requires Consistent(s) && Requeued(s) != [] && SoleJoins(s) && ReturnsExact(s.log)
    ensures Sized(Schedule(s)) && SoleJoins(Schedule(s)) && ReturnsExact(Schedule(s).log)
  {
    hide Reaped, Schedule, Requeued, QueueOk, MembersOk, HistoryOk, TableOk;
    ScheduleConts(s);
  }

  lemma DyingSole(s: State, status: int)
    requires AtUser(s) && SoleJoins(s) && ReturnsExact(s.log)
    ensures Sized(Dying(s, status)) && SoleJoins(Dying(s, status)) && ReturnsExact(Dying(s, status).log)
  {
    hide Reaped;
    forall tid ensures Reaped(Dying(s, status).log, tid) <==> Reaped(s.log, tid) {
      HistoryAppend(s.log, Exit(s.tcb[s.cur].tid, status), tid);
    }
  }

  lemma ActSole(s: State, a: Action)
    requires Inv(s) && Enabled(s, a) && SoleJoins(s) && ReturnsExact(s.log) && JoinsAlone(s, a)
    ensures Sized(Act(s, a)) && SoleJoins(Act(s, a)) && ReturnsExact(Act(s, a).log)
  {
    hide Reaped, QueueOk, MembersOk, HistoryOk, Schedule, Yield, Poll, Join, Dying;
    match a
    case ACreate => CreateInv(s);
    case AStart => ScheduleSole(s);
    case AYield => YieldSole(s);
    case APreempt => YieldSole(s);
    case AExit(status) => ExitSole(s, status);
    case AJoin(tid) => JoinSole(s, tid);
    case APoll => PollSole(s);
  }

  lemma {:induction false} SoleRun(s: State, actions: seq<Action>, t: State)
    requires Inv(s) && SoleJoins(s) && ReturnsExact(s.log) && Run(s, actions, t) && AllJoinAlone(s, actions, t)
    ensures Inv(t) && SoleJoins(t) && ReturnsExact(t.log)
    decreases |actions|
  {
    if actions != [] {
      hide SoleJoins, ReturnsExact, Act, Inv;
      ActInv(s, actions[0]);
      ActSole(s, actions[0]);
      SoleRun(Act(s, actions[0]), actions[1..], t);
    }
  }

  /** When each join is called with a positive tid nobody is waiting for, every join returns the status of
      the very thread it asked for. */
  lemma LoneJoinsExact(actions: seq<Action>, t: State)
    requires Run(Boot, actions, t) && AllJoinAlone(Boot, actions, t)
    ensures ReturnsExact(t.log)
  {
    BootInv();
    SoleRun(Boot, actions, t);
  }

  /** Thread `j` is blocked in a join whose target has exited, and `r` is what that join has to return. */
  ghost predicate Due(s: State, j: nat, r: Event)
    requires Sized(s)
  {
    && j < THREAD_MAX && s.tcb[j].cont.InJoin? && s.tcb[j].cont.slot < THREAD_MAX
    && var target := s.tcb[s.tcb[j].cont.slot];
    && r.Return? && r.asked == s.tcb[j].cont.asked == r.reaped
    && target.runstate == Exited && target.exitStatus == r.status
  }

  /** Only the running thread's join can end. */
  lemma ActKeepsCont(s: State, a: Action, j: nat)
    requires Inv(s) && Enabled(s, a) && j < THREAD_MAX && j != s.cur && s.tcb[j].cont.InJoin?
    ensures Sized(Act(s, a)) && Act(s, a).tcb[j].cont == s.tcb[j].cont
  {
    hide QueueOk, MembersOk, HistoryOk, Schedule, Yield, Reap;
    match a
    case ACreate => CreateInv(s);
    case AStart => ScheduleConts(s);
    case AYield => YieldConts(s);
    case APreempt => YieldConts(s);
    case AExit(status) =>
      DyingConsistent(s, status);
      ScheduleConts(Dying(s, status));
    case AJoin(tid) =>
      var slot := SlotOf(s.tcb, tid, 0);
      if slot < THREAD_MAX {
        SetContInv(s, slot, tid);
        PollKeepsCont(SetCont(s, InJoin(slot, tid)), j);
      }
    case APoll => PollKeepsCont(s, j);
  }

  lemma YieldConts(s: State)
    requires Inv(s) && s.cur != NONE
    ensures Sized(Yield(s)) && forall i :: 0 <= i < THREAD_MAX ==> Yield(s).tcb[i].cont == s.tcb[i].cont
  {
    YieldInv(s);
    ScheduleConts(s);
  }

  lemma PollKeepsCont(s: State, j: nat)
    requires Inv(s) && Waiting(s) && j < THREAD_MAX && j != s.cur && s.tcb[j].cont.InJoin?
    ensures Sized(Poll(s)) && Poll(s).tcb[j].cont == s.tcb[j].cont
  {
    hide QueueOk, MembersOk, HistoryOk, Yield, Reap;
    if s.tcb[s.tcb[s.cur].cont.slot].runstate == Exited {
      ReapTable(s);
    } else {
      YieldConts(s);
    }
  }

  /** While every join is alone, an exited target stays until its joiner has had its turn. */
  lemma TargetStays(s: State, a: Action, j: nat, r: Event)
    requires Inv(s) && Enabled(s, a) && SoleJoins(s) && ReturnsExact(s.log) && JoinsAlone(s, a)
    requires j != s.cur && Due(s, j, r)
    ensures Sized(Act(s, a)) && Due(Act(s, a), j, r)
  {
    hide Act, Enabled, QueueOk, MembersOk;
    var c := s.tcb[j].cont;
    ActInv(s, a);
    ActSole(s, a);
    ActKeepsCont(s, a, j);
    ActSlot(s, a, c.slot);
    assert JoinOk(Act(s, a), c);
    hide Reaped;
  }

  /** Thread `j` runs, and can only take the turn that returns `r`. */
  ghost predicate ReturnsNow(s: State, j: nat, r: Event) {
    && Waiting(s) && s.cur == j
    && (forall a :: Enabled(s, a) <==> a == APoll)
    && !Switches(s, APoll)
    && Act(s, APoll).log == s.log + [r]
  }

  lemma TurnEnds(s: State, j: nat, r: Event)
    requires Inv(s) && SoleJoins(s) && s.cur == j && Due(s, j, r)
    ensures ReturnsNow(s, j, r)
  {
    ReapTable(s);
    assert JoinOk(s, s.tcb[j].cont);
    hide Consistent, Reap, Reaped;
  }

  lemma LoggedAfterTurn(s: State, actions: seq<Action>, u: State, j: nat, r: Event)
    requires Inv(s) && ReturnsNow(s, j, r) && Run(s, actions, u) && actions != []
    ensures r in u.log
  {
    ActInv(s, APoll);
    hide Act, Inv, Switches;
    assert actions[0] == APoll;
    var t := Act(s, APoll);
    assert t.log[|s.log|] == r;
    TidAndStatusFixed(t, actions[1..], u, 0);
    assert u.log[|s.log|] == r;
  }

  /** The state after `n` more switches, when the thread `j` that `r` is due to was at index `k` of the queue: it
      waits for exactly `k + 1` of them, and returns before there is another one. */
  ghost predicate InTime(u: State, n: nat, k: nat, j: nat, r: Event) {
    && (n <= k ==> Sized(u) && k - n < |u.ready| && u.ready[k - n] == j && Due(u, j, r))
    && (n == k + 1 ==> r in u.log || ReturnsNow(u, j, r))
    && (n > k + 1 ==> r in u.log)
  }

  /** Once its target has exited, a lone join returns the target's status at its next turn, whatever the other
      threads do meanwhile. */
  lemma {:induction false} JoinEnds(s: State, actions: seq<Action>, u: State, k: nat, r: Event)
    requires Inv(s) && SoleJoins(s) && ReturnsExact(s.log) && Run(s, actions, u) && AllJoinAlone(s, actions, u)
    requires k < |s.ready| && Due(s, s.ready[k], r)
    ensures InTime(u, SwitchCount(s, actions, u), k, s.ready[k], r)
    decreases |actions|
  {
    hide Act, Enabled, Inv, Switches, SoleJoins, ReturnsExact, Due, ReturnsNow, JoinsAlone, Sized;
    if actions != [] {
      var a, rest, j := actions[0], actions[1..], s.ready[k];
      var s1 := Act(s, a);
      NotRunning(s, k);
      ActInv(s, a);
      ActSole(s, a);
      ActQueue(s, a);
      TargetStays(s, a, j, r);
      if !Switches(s, a) {
        assert s1.ready[k] == j;
        JoinEnds(s1, rest, u, k, r);
      } else if k > 0 {
        assert s1.ready[k - 1] == s.ready[1..][k - 1] == j;
        JoinEnds(s1, rest, u, k - 1, r);
      } else {
        TurnEnds(s1, j, r);
        if rest != [] {
          LoggedAfterTurn(s1, rest, u, j, r);
        }
      }
    } else {
      NotRunning(s, k);
    }
  }

  lemma NotRunning(s: State, k: nat)
    requires Inv(s) && k < |s.ready|
    ensures Sized(s) && s.ready[k] != s.cur
  {
    assert s.ready[k] in s.ready;
  }

  /** Nothing has exited or waits before the first switch. */
  ghost predicate Started(s: State) {
    Sized(s) && (s.cur == NONE ==> forall i :: 0 <= i < THREAD_MAX ==> s.tcb[i].runstate != Exited)
  }

  lemma {:induction false} StartedRun(s: State, actions: seq<Action>, t: State)
    requires Inv(s) && Started(s) && Run(s, actions, t)
    ensures Started(t)
    decreases |actions|
  {
    hide QueueOk, MembersOk, HistoryOk;
    if actions != [] {
      ActInv(s, actions[0]);
      StartedRun(Act(s, actions[0]), actions[1..], t);
    }
  }

  /** In a run whose joins are all alone, a blocked join whose target has exited returns the target's status at
      its next turn, fewer than THREAD_MAX switches away. */
  lemma JoinReturnsInTime(before: seq<Action>, s: State, actions: seq<Action>, u: State, k: nat)
    requires Run(Boot, before, s) && AllJoinAlone(Boot, before, s)
    requires Run(s, actions, u) && AllJoinAlone(s, actions, u)
    requires Sized(s) && k < |s.ready| && s.tcb[s.ready[k]].cont.InJoin?
    requires var slot := s.tcb[s.ready[k]].cont.slot; slot < THREAD_MAX && s.tcb[slot].runstate == Exited
    ensures k + 1 < THREAD_MAX
    ensures var c := s.tcb[s.ready[k]].cont;
      && c.asked > 0
      && var r := Return(c.asked, c.asked, s.tcb[c.slot].exitStatus);
      && r !in s.log
      && InTime(u, SwitchCount(s, actions, u), k, s.ready[k], r)
  {
    BootInv();
    SoleRun(Boot, before, s);
    StartedRun(Boot, before, s);
    QueueBound(s);
    var c := s.tcb[s.ready[k]].cont;
    assert !Reaped(s.log, c.asked);
    hide Inv, InTime, Run, ReturnsExact;
    JoinEnds(s, actions, u, k, Return(c.asked, c.asked, s.tcb[c.slot].exitStatus));
  }

  lemma {:induction false} RunSnoc(s: State, actions: seq<Action>, t: State, a: Action)
    requires Run(s, actions, t) && Sized(t) && Enabled(t, a)
    ensures Run(s, actions + [a], Act(t, a))
    decreases |actions|
  {
    hide Act, Enabled;
    if actions != [] {
      RunSnoc(Act(s, actions[0]), actions[1..], t, a);
      assert (actions + [a])[1..] == actions[1..] + [a];
    } else {
      assert Run(Act(s, a), [], Act(t, a));
    }
  }

  ghost predicate Reachable(from: State, s: State) {
    exists actions :: Run(from, actions, s)
  }

  lemma Reach(s: State, a: Action)
    requires Reachable(Boot, s) && Sized(s) && Enabled(s, a)
    ensures Reachable(Boot, Act(s, a))
  {
    var actions :| Run(Boot, actions, s);
    RunSnoc(Boot, actions, s, a);
  }

  /** Reachable, with the first three slots as given and the others free. */
  ghost predicate At(s: State, three: seq<Thread>, ready: seq<nat>, cur: int, nextTid: nat, log: seq<Event>)
    requires |three| == 3
  {
    Reachable(Boot, s) && s == State(three + Zeros(THREAD_MAX - 3), ready, s.members, cur, nextTid, log)
  }

  lemma ThreeThreads() returns (s: State)
    ensures At(s, [Thread(1, Ready, 0, InUser), Thread(2, New, 0, InUser), Thread(3, New, 0, InUser)], [1, 2], 0, 4, [])
  {
    assert Run(Boot, [], Boot);
    assert SlotOf(Boot.tcb, 0, 0) == 0;
    Reach(Boot, ACreate); s := Act(Boot, ACreate);
    Reach(s, AStart); s := Act(s, AStart);
    assert SlotOf(s.tcb, 0, 0) == 1;
    Reach(s, ACreate); s := Act(s, ACreate);
    assert s.tcb[0].tid != 0 && s.tcb[1].tid != 0 && s.tcb[2].tid == 0;
    assert SlotOf(s.tcb, 0, 0) == 2;
    Reach(s, ACreate); s := Act(s, ACreate);
  }

  lemma FirstWaits() returns (s: State)
    ensures At(s, [Thread(1, Ready, 0, InJoin(1, 2)), Thread(2, Ready, 0, InUser), Thread(3, Ready, 0, InUser)],
               [0, 1], 2, 4, [])
  {
    s := ThreeThreads();
    assert s.tcb[0].tid == 1 && s.tcb[1].tid == 2;
    assert SlotOf(s.tcb, 2, 0) == 1;
    Reach(s, AJoin(2)); s := Act(s, AJoin(2));
    Reach(s, AYield); s := Act(s, AYield);
  }

  lemma SecondWaits() returns (s: State)
    ensures At(s, [Thread(1, Ready, 0, InJoin(1, 2)), Thread(2, Ready, 0, InUser), Thread(3, Ready, 0, InJoin(1, 2))],
               [1, 2], 0, 4, [])
  {
    s := FirstWaits();
    assert s.tcb[0].tid == 1 && s.tcb[1].tid == 2;
    assert SlotOf(s.tcb, 2, 0) == 1;
    Reach(s, AJoin(2)); s := Act(s, AJoin(2));
  }

  /** Thread 1 joins thread 2; so does 3, before 2 exits with 7. */
  lemma BothWait() returns (s: State)
    ensures At(s, [Thread(1, Ready, 0, InJoin(1, 2)), Thread(2, Exited, 7, InUser), Thread(3, Ready, 0, InJoin(1, 2))],
               [0], 2, 4, [Exit(2, 7)])
  {
    var s0 := SecondWaits();
    Reach(s0, APoll);
    var s1 := Act(s0, APoll);
    assert s1.ready == [2, 0] && s1.cur == 1 && s1.tcb == s0.tcb;
    Reach(s1, AExit(7));
    s := Act(s1, AExit(7));
  }

  /** Thread 3 wakes first, and creates thread 4 in the slot it has freed. */
  lemma SlotReused() returns (s: State)
    ensures At(s, [Thread(1, Ready, 0, InJoin(1, 2)), Thread(4, New, 0, InUser), Thread(3, Ready, 0, InUser)],
               [0, 1], 2, 5, [Exit(2, 7), Return(2, 2, 7)])
  {
    s := BothWait();
    WithoutSame(s.ready, 1);
    Reach(s, APoll); s := Act(s, APoll);
    assert s.tcb[0].tid != 0 && s.tcb[1].tid == 0;
    assert SlotOf(s.tcb, 0, 0) == 1;
    Reach(s, ACreate); s := Act(s, ACreate);
  }

  lemma FourthRuns() returns (s: State)
    ensures At(s, [Thread(1, Ready, 0, InJoin(1, 2)), Thread(4, Ready, 0, InUser), Thread(3, Ready, 0, InUser)],
               [2, 0], 1, 5, [Exit(2, 7), Return(2, 2, 7)])
  {
    var s0 := SlotReused();
    Reach(s0, AYield);
    var s1 := Act(s0, AYield);
    assert s1.ready == [1, 2] && s1.cur == 0 && s1.tcb == s0.tcb;
    Reach(s1, APoll);
    s := Act(s1, APoll);
  }

  lemma FourthExited() returns (s: State)
    ensures At(s, [Thread(1, Ready, 0, InJoin(1, 2)), Thread(4, Exited, 9, InUser), Thread(3, Ready, 0, InUser)],
               [2], 0, 5, [Exit(2, 7), Return(2, 2, 7), Exit(4, 9)])
  {
    var s0 := FourthRuns();
    Reach(s0, AExit(9));
    var s1 := Act(s0, AExit(9));
    assert s1.ready == [0] && s1.cur == 2 && s1.tcb[2].cont == InUser;
    Reach(s1, AYield);
    s := Act(s1, AYield);
  }

  /** Two joins on one thread: the second to wake waits on, and returns the status of the thread that was
      given the same slot. It asked for thread 2, which exited with 7, and returns 9, which thread 4 exited with. */
  lemma OvertakenJoin() returns (s: State)
    ensures Reachable(Boot, s)
    ensures s.log == [Exit(2, 7), Return(2, 2, 7), Exit(4, 9), Return(2, 4, 9)]
  {
    var s0 := FourthExited();
    Reach(s0, APoll);
    s := Act(s0, APoll);
  }
}
