/** Exit statuses from the argument of thread_exit to the result of thread_join, and tids from their creation, over
    whole runs. */
module ThreadExits {
  import opened Threads
  import opened ThreadRuns

  // ---------------------------------------------------------------------------------------------
  // What is recorded of an exit is what the thread passed

  /** In the course of the run the thread with this tid calls thread_exit with this status. */
  ghost predicate Exits(s: State, actions: seq<Action>, tid: nat, status: int) {
    exists k: nat, u ::
      && k < |actions| && actions[k] == AExit(status)
      && Run(s, actions[..k], u) && 0 <= u.cur < |u.tcb| && u.tcb[u.cur].tid == tid
  }

  /** The same along the run. */
  ghost predicate ExitsAlong(s: State, actions: seq<Action>, t: State, tid: nat, status: int)
    requires Run(s, actions, t)
    decreases |actions|
  {
    actions != [] &&
    ((actions[0] == AExit(status) && s.tcb[s.cur].tid == tid)
     || ExitsAlong(Act(s, actions[0]), actions[1..], t, tid, status))
  }

  lemma {:induction false} ExitsIff(s: State, actions: seq<Action>, t: State, tid: nat, status: int)
    requires Run(s, actions, t)
    ensures Exits(s, actions, tid, status) <==> ExitsAlong(s, actions, t, tid, status)
    decreases |actions|
  {
    hide Act;
    if actions != [] {
      var s1, rest := Act(s, actions[0]), actions[1..];
      ExitsIff(s1, rest, t, tid, status);
      if ExitsAlong(s1, rest, t, tid, status) {
        var k: nat, u :| k < |rest| && rest[k] == AExit(status) && Run(s1, rest[..k], u)
                         && 0 <= u.cur < |u.tcb| && u.tcb[u.cur].tid == tid;
        assert actions[..k + 1][1..] == rest[..k] && actions[k + 1] == rest[k];
        assert Run(s, actions[..k + 1], u);
      }
      if actions[0] == AExit(status) && s.tcb[s.cur].tid == tid {
        assert Run(s, actions[..0], s);
      }
      if Exits(s, actions, tid, status) {
        var k: nat, u :| k < |actions| && actions[k] == AExit(status) && Run(s, actions[..k], u)
                         && 0 <= u.cur < |u.tcb| && u.tcb[u.cur].tid == tid;
        if k > 0 {
          assert actions[..k][1..] == rest[..k - 1] && rest[k - 1] == actions[k];
          assert Run(s1, rest[..k - 1], u);
        }
      }
    }
  }

  /** What one action adds to the history: an exit its thread and its argument, a join that is over its return. */
  lemma ActLog(s: State, a: Action, tid: nat, status: int)
    requires Inv(s) && Enabled(s, a)
    ensures Exit(tid, status) in Act(s, a).log <==>
      Exit(tid, status) in s.log || (a == AExit(status) && s.tcb[s.cur].tid == tid)
  {
    hide QueueOk, MembersOk, HistoryOk, Close;
    match a
    case AYield => YieldInv(s);
    case APreempt => YieldInv(s);
    case AExit(argument) =>
      var d := Dying(s, argument);
      DyingConsistent(s, argument);
      ScheduleConts(d);
      assert d.log[|s.log|] == Exit(s.tcb[s.cur].tid, argument);
    case _ =>
  }

  lemma {:induction false} ExitsLogged(s: State, actions: seq<Action>, t: State, tid: nat, status: int)
    requires Inv(s) && Run(s, actions, t)
    ensures Exit(tid, status) in t.log <==> Exit(tid, status) in s.log || ExitsAlong(s, actions, t, tid, status)
    decreases |actions|
  {
    hide Act, Inv;
    if actions != [] {
      ActInv(s, actions[0]);
      ActLog(s, actions[0], tid, status);
      ExitsLogged(Act(s, actions[0]), actions[1..], t, tid, status);
    }
  }

  /** In every run the history holds an exit if and only if the thread with that tid called thread_exit with that
      status; and no thread exits twice. */
  lemma ExitIsArgument(actions: seq<Action>, t: State, tid: nat, status: int)
    requires Run(Boot, actions, t)
    ensures Exit(tid, status) in t.log <==> Exits(Boot, actions, tid, status)
  {
    BootInv();
    ExitsLogged(Boot, actions, t, tid, status);
    ExitsIff(Boot, actions, t, tid, status);
  }

  lemma OneExit(actions: seq<Action>, t: State, tid: nat, status: int, status': int)
    requires Run(Boot, actions, t) && Exits(Boot, actions, tid, status) && Exits(Boot, actions, tid, status')
    ensures status == status'
  {
    ExitIsArgument(actions, t, tid, status);
    ExitIsArgument(actions, t, tid, status');
    BootInv();
    RunInv(Boot, actions, t);
    ExitsAgree(t.log, tid, status, status');
  }

  lemma ExitsAgree(log: seq<Event>, tid: nat, status: int, status': int)
    requires LogOk(log) && Exit(tid, status) in log && Exit(tid, status') in log
    ensures status == status'
  {
    var e :| 0 <= e < |log| && log[e] == Exit(tid, status);
    var f :| 0 <= f < |log| && log[f] == Exit(tid, status');
    hide LogOk;
    if e < f {
      ExitsDiffer(log, e, f);
    } else if f < e {
      ExitsDiffer(log, f, e);
    }
  }

  // ---------------------------------------------------------------------------------------------
  // Joins return it

  /** Each join of a run returns the argument that the thread it closed had passed to thread_exit. */
  lemma JoinReturnsArgument(actions: seq<Action>, t: State, k: nat)
    requires Run(Boot, actions, t) && k < |t.log| && t.log[k].Return?
    ensures forall status :: Exits(Boot, actions, t.log[k].reaped, status) <==> status == t.log[k].status
  {
    JoinReturns(actions, t, k);
    var r := t.log[k];
    assert Exit(r.reaped, r.status) in t.log;
    ExitIsArgument(actions, t, r.reaped, r.status);
    forall status | Exits(Boot, actions, r.reaped, status) ensures status == r.status {
      OneExit(actions, t, r.reaped, status, r.status);
    }
  }

  /** When each join is called with a positive tid nobody is waiting for, that thread is the one asked for. */
  lemma LoneJoinsReturnArgument(actions: seq<Action>, t: State, k: nat)
    requires Run(Boot, actions, t) && AllJoinAlone(Boot, actions, t) && k < |t.log| && t.log[k].Return?
    ensures t.log[k].asked > 0
    ensures forall status :: Exits(Boot, actions, t.log[k].asked, status) <==> status == t.log[k].status
  {
    LoneJoinsExact(actions, t);
    JoinReturns(actions, t, k);
    JoinReturnsArgument(actions, t, k);
  }

  /** A blocked join that is alone, of a thread that has called thread_exit, returns the argument of that call at its
      next turn, at most 15 switches away. */
  lemma JoinReturnsArgumentInTime(before: seq<Action>, s: State, actions: seq<Action>, u: State, k: nat, asked: nat,
                                  status: int)
    requires Run(Boot, before, s) && AllJoinAlone(Boot, before, s)
    requires Run(s, actions, u) && AllJoinAlone(s, actions, u)
    requires Sized(s) && k < |s.ready| && s.tcb[s.ready[k]].cont.InJoin? && s.tcb[s.ready[k]].cont.asked == asked
    requires Exits(Boot, before, asked, status)
    ensures k + 1 <= 15
    ensures Return(asked, asked, status) !in s.log
    ensures InTime(u, SwitchCount(s, actions, u), k, s.ready[k], Return(asked, asked, status))
  {
    TargetHasExited(before, s, s.ready[k], status);
    JoinReturnsInTime(before, s, actions, u, k);
  }

  lemma TargetHasExited(before: seq<Action>, s: State, j: nat, status: int)
    requires Run(Boot, before, s) && AllJoinAlone(Boot, before, s)
    requires Sized(s) && j < THREAD_MAX && s.tcb[j].cont.InJoin? && s.tcb[j].cont.asked >= 0
    requires Exits(Boot, before, s.tcb[j].cont.asked, status)
    ensures var slot := s.tcb[j].cont.slot;
      slot < THREAD_MAX && s.tcb[slot].runstate == Exited && s.tcb[slot].exitStatus == status
  {
    BootInv();
    SoleRun(Boot, before, s);
    var c := s.tcb[j].cont;
    ExitIsArgument(before, s, c.asked, status);
    assert JoinOk(s, c);
    assert HasExited(s.log, c.asked);
    ExitsAgree(s.log, c.asked, status, s.tcb[c.slot].exitStatus);
  }

  // ---------------------------------------------------------------------------------------------
  // Tids

  /** Threads created in the course of a run: the calls of thread_create that find a free slot. */
  ghost function Created(s: State, actions: seq<Action>, t: State): nat
    requires Run(s, actions, t)
    decreases |actions|
  {
    if actions == [] then 0
    else
      (if actions[0].ACreate? && exists i :: 0 <= i < |s.tcb| && s.tcb[i].tid == 0 then 1 else 0)
      + Created(Act(s, actions[0]), actions[1..], t)
  }

  lemma {:induction false} TidsCounted(s: State, actions: seq<Action>, t: State)
    requires Inv(s) && Run(s, actions, t)
    ensures t.nextTid == s.nextTid + Created(s, actions, t)
    decreases |actions|
  {
    if actions != [] {
      ActInv(s, actions[0]);
      ActTid(s, actions[0]);
      hide Act, Inv, Enabled;
      TidsCounted(Act(s, actions[0]), actions[1..], t);
    }
  }

  lemma ActTid(s: State, a: Action)
    requires Inv(s) && Enabled(s, a)
    ensures Act(s, a).nextTid ==
      s.nextTid + if a.ACreate? && exists i :: 0 <= i < |s.tcb| && s.tcb[i].tid == 0 then 1 else 0
  {
    hide QueueOk, MembersOk, HistoryOk;
  }

  /** Tids are handed out in order: the first thread gets 1, and each further one the number of threads created before
      it plus one, in the first free slot and at the end of the ready queue. */
  lemma TidsInOrder(actions: seq<Action>, t: State, slot: nat)
    requires Run(Boot, actions, t) && Sized(t) && Enabled(t, ACreate)
    requires slot < 16 && t.tcb[slot].tid == 0 && forall i :: 0 <= i < slot ==> t.tcb[i].tid != 0
    ensures var t' := Act(t, ACreate);
      && t'.tcb == t.tcb[slot := Thread(Created(Boot, actions, t) + 1, New, 0, InUser)]
      && t'.ready == t.ready + [slot] && t'.members == [slot] + t.members && t'.cur == t.cur && t'.log == t.log
  {
    hide Inv, Run, Created;
    BootInv();
    RunInv(Boot, actions, t);
    TidsCounted(Boot, actions, t);
    FreeSlotZeroed(t, slot);
  }

  lemma FreeSlotZeroed(s: State, slot: nat)
    requires Inv(s) && slot < THREAD_MAX && s.tcb[slot].tid == 0 && forall i :: 0 <= i < slot ==> s.tcb[i].tid != 0
    ensures SlotOf(s.tcb, 0, 0) == slot && s.tcb[slot] == Thread(0, New, 0, InUser)
  {
    hide QueueOk, MembersOk, HistoryOk;
  }
}
