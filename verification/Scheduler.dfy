/** The thread and scheduler code over its table and its two pointer lists, each entry point proved against the
    thread machine. */
module Scheduler {
  import opened Common
  import opened Threads
  import opened ThreadLists
  import ThreadRuns

  const ENOSYS: int := 7
  const ESRCH: int := 19

  /** Index of the first thread in `q` that can run. */
  function FirstRunnable(tcb: seq<Thread>, q: seq<nat>): (k: nat)
    requires forall i :: 0 <= i < |q| ==> q[i] < |tcb|
    ensures k <= |q|
    ensures k < |q| ==> tcb[q[k]].runstate != Exited
    ensures forall i :: 0 <= i < k ==> tcb[q[i]].runstate == Exited
  {
    if q == [] || tcb[q[0]].runstate != Exited then 0 else 1 + FirstRunnable(tcb, q[1..])
  }

  /** Slots stand for pointers into the table; THREAD_MAX stands for a null pointer from a search. */
  class Kernel {
    const tcb: array<Thread>
    const queue: SlotList
    const threads: SlotList
    var current: int
    var nextTid: nat
    ghost var log: seq<Event>

    constructor ()
      ensures Valid() && fresh(Footprint() - {this}) && Abs() == Boot
    {
      hide SlotList.Valid, Inv;
      tcb := new Thread[THREAD_MAX](_ => Zeroed);
      queue := new SlotList();
      threads := new SlotList();
      current, nextTid, log := NONE, 1, [];
      new;
      assert tcb[..] == Boot.tcb;
      BootInv();
    }

    ghost function Footprint(): set<object> {
      {this, tcb, queue, threads} + queue.repr + threads.repr
    }

    ghost function Abs(): State
      reads this, tcb, queue, threads
    {
      State(tcb[..], queue.slots, threads.slots, current, nextTid, log)
    }

    /** The two lists are pointer lists over separate nodes. */
    ghost predicate Linked()
      reads queue, threads, queue.repr, threads.repr
    {
      && queue.Valid() && threads.Valid()
      && queue != threads && queue.repr !! threads.repr
      && this !in queue.repr && tcb !in queue.repr && queue !in queue.repr && threads !in queue.repr
      && this !in threads.repr && tcb !in threads.repr && queue !in threads.repr && threads !in threads.repr
    }

    ghost predicate Valid()
      reads Footprint()
    {
      tcb.Length == THREAD_MAX && Linked() && Inv(Abs())
    }

    /** First slot with the given tid; `thread_alloc` looks for 0. */
    method FindThread(tid: int) returns (slot: nat)
      ensures slot == SlotOf(tcb[..], tid, 0)
    {
      slot := 0;
      while slot < tcb.Length
        invariant slot <= tcb.Length
        invariant SlotOf(tcb[..], tid, 0) == SlotOf(tcb[..], tid, slot)
      {
        if tcb[slot].tid == tid { return; }
        slot := slot + 1;
      }
    }

    method SchedAdd(t: nat)
      requires Linked() && t < THREAD_MAX && t !in queue.slots
      modifies queue, queue.repr
      ensures Linked() && queue.slots == old(queue.slots) + [t]
    {
      hide SlotList.Valid;
      queue.AddTail(t);
    }

    method SchedRemove(t: nat)
      requires Linked() && t < THREAD_MAX
      modifies queue, queue.repr
      ensures Linked() && queue.slots == Without(old(queue.slots), t)
    {
      hide SlotList.Valid, Without;
      queue.Remove(t);
    }

    /** Rotates threads that cannot run to the end of the queue until one that can stands at its head. */
    method ChooseNextThread() returns (next: nat)
      requires Linked() && tcb.Length == THREAD_MAX
      requires forall i :: 0 <= i < |queue.slots| ==> queue.slots[i] < THREAD_MAX
      requires FirstRunnable(tcb[..], queue.slots) < |queue.slots|
      modifies queue, queue.repr
      ensures Linked()
      ensures var q, k := old(queue.slots), FirstRunnable(tcb[..], old(queue.slots));
        queue.slots == q[k..] + q[..k] && next == queue.slots[0] == q[k]
    {
      hide SlotList.Valid, Rotation, FirstRunnable;
      ghost var q, k := queue.slots, FirstRunnable(tcb[..], queue.slots);
      ghost var i := 0;
      while true
        invariant 0 <= i <= k && queue.slots == q[i..] + q[..i] && Linked()
        decreases k - i
      {
        next := queue.First();
        assert next == q[i];
        match tcb[next].runstate
        case New => return;
        case Ready => return;
        case Exited =>
          RotationStep(q, i);
          queue.RotateLeft();
          i := i + 1;
      }
    }

    lemma RotationStep(q: seq<nat>, i: nat)
      requires i < |q|
      ensures Rotation(q[i..] + q[..i]) == q[i + 1..] + q[..i + 1]
    {
    }

    /** Makes `incoming` the running thread; a new thread is launched, a ready one resumed. */
    method ThreadSwitch(incoming: nat)
      requires tcb.Length == THREAD_MAX && incoming < THREAD_MAX && tcb[incoming].runstate != Exited
      modifies `current, tcb
      ensures current == incoming
      ensures tcb[..] == old(tcb[..])[incoming := old(tcb[incoming]).(runstate := Ready)]
    {
      current := incoming;
      if tcb[incoming].runstate == New {
        tcb[incoming] := tcb[incoming].(runstate := Ready);
      } else {
        assert tcb[incoming].(runstate := Ready) == tcb[incoming];
      }
    }

    method Schedule()
      requires tcb.Length == THREAD_MAX && Linked() && Consistent(Abs()) && Requeued(Abs()) != []
      modifies Footprint()
      ensures Valid() && Abs() == Threads.Schedule(old(Abs()))
    {
      hide SlotList.Valid, Consistent, Inv, Requeued, Threads.Schedule;
      ghost var s := Abs();
      ScheduleInv(s);
      ScheduleIs(s);
      var next := TakeNext(s);
      ThreadSwitch(next);
    }

    lemma ScheduleIs(s: State)
      requires Consistent(s) && Requeued(s) != []
      ensures Requeued(s)[0] < THREAD_MAX && s.tcb[Requeued(s)[0]].runstate != Exited
      ensures var q := Requeued(s);
        Threads.Schedule(s)
        == State(s.tcb[q[0] := s.tcb[q[0]].(runstate := Ready)], q[1..], s.members, q[0], s.nextTid, s.log)
    {
      HeadRuns(s);
    }

    /** Puts the running thread back unless it exited, and takes the next one out of the queue. */
    method TakeNext(ghost s: State) returns (next: nat)
      requires tcb.Length == THREAD_MAX && Linked() && s == Abs() && Consistent(s) && Requeued(s) != []
      modifies queue, queue.repr
      ensures Linked() && next < THREAD_MAX && next == Requeued(s)[0] && queue.slots == Requeued(s)[1..]
    {
      hide SlotList.Valid, Consistent, Without, FirstRunnable;
      HeadRuns(s);
      if current != NONE && tcb[current].runstate == Ready {
        SchedAdd(current);
      }
      ghost var q := Requeued(s);
      assert queue.slots == q;
      next := ChooseNextThread();
      assert queue.slots == q;
      SchedRemove(next);
    }

    /** The head of the queue can run, and the thread to be requeued is not in it. */
    lemma HeadRuns(s: State)
      requires Consistent(s) && Requeued(s) != []
      ensures Sized(s)
      ensures forall i :: 0 <= i < |Requeued(s)| ==> Requeued(s)[i] < THREAD_MAX
      ensures FirstRunnable(s.tcb, Requeued(s)) == 0 && s.tcb[Requeued(s)[0]].runstate != Exited
      ensures s.cur != NONE ==> s.cur !in s.ready
      ensures Without(Requeued(s), Requeued(s)[0]) == Requeued(s)[1..]
    {
      assert Requeued(s)[0] in s.ready || Requeued(s)[0] == s.cur;
    }

    /** A slot is zero-filled when free, so the fields not set here are zero. */
    method ThreadCreate() returns (res: int)
      requires Valid() && (nextTid < INT_MAX || SlotOf(tcb[..], 0, 0) == THREAD_MAX)
      modifies Footprint()
      ensures Valid() && Abs() == Create(old(Abs()))
      ensures res == if forall i :: 0 <= i < 16 ==> old(tcb[..])[i].tid != 0 then -7 else old(nextTid)
    {
      hide SlotList.Valid, Inv, SlotOf;
      ghost var s := Abs();
      CreateInv(s);
      FreeSlotUnlisted(s);
      var slot := FindThread(0);
      if slot == THREAD_MAX { return -ENOSYS; }
      tcb[slot] := tcb[slot].(runstate := New);
      tcb[slot] := tcb[slot].(tid := nextTid);
      nextTid := nextTid + 1;
      Enlist(slot);
      res := tcb[slot].tid;
      assert tcb[..] == s.tcb[slot := s.tcb[slot].(tid := s.nextTid, runstate := New)];
    }

    /** To the front of the process's list of threads, and to the end of the ready queue. */
    method Enlist(slot: nat)
      requires Linked() && slot < THREAD_MAX && slot !in threads.slots && slot !in queue.slots
      modifies threads, threads.repr, queue, queue.repr
      ensures Linked() && threads.slots == [slot] + old(threads.slots) && queue.slots == old(queue.slots) + [slot]
    {
      hide SlotList.Valid;
      threads.AddFront(slot);
      SchedAdd(slot);
    }

    lemma FreeSlotUnlisted(s: State)
      requires Inv(s)
      ensures var slot := SlotOf(s.tcb, 0, 0); slot < THREAD_MAX ==> slot !in s.ready && slot !in s.members
      ensures Sized(s)
    {
    }

    lemma InvParts(s: State)
      requires Inv(s)
      ensures Sized(s) && Consistent(s)
    {
    }

    /** The caller goes on only when it is chosen again. */
    method ThreadYield()
      requires Valid() && current != NONE
      modifies Footprint()
      ensures Valid() && Abs() == Yield(old(Abs()))
    {
      hide SlotList.Valid, Inv, Consistent;
      ghost var s := Abs();
      InvParts(s);
      ThreadRuns.YieldInv(s);
      tcb[current] := tcb[current].(runstate := Ready);
      assert tcb[..] == s.tcb;
      Schedule();
    }

    method ThreadExit(status: int)
      requires Valid() && AtUser(Abs()) && queue.slots != []
      modifies Footprint()
      ensures Valid() && Abs() == Threads.Schedule(Dying(old(Abs()), status))
      ensures log == old(log) + [Exit(old(tcb[current].tid), status)]
      ensures tcb[old(current)] == old(tcb[current]).(runstate := Exited, exitStatus := status)
    {
      hide SlotList.Valid, Inv, Consistent;
      ghost var s := Abs();
      DyingConsistent(s, status);
      DeadStays(s, status);
      tcb[current] := tcb[current].(exitStatus := status);
      tcb[current] := tcb[current].(runstate := Exited);
      log := log + [Exit(tcb[current].tid, status)];
      assert Abs() == Dying(s, status);
      Schedule();
    }

    /** Nothing is written to the slot of a thread that has exited. */
    lemma DeadStays(s: State, status: int)
      requires Inv(s) && AtUser(s) && s.ready != []
      ensures var t := Threads.Schedule(Dying(s, status));
        && t.log == s.log + [Exit(s.tcb[s.cur].tid, status)] && |t.tcb| == THREAD_MAX
        && t.tcb[s.cur] == s.tcb[s.cur].(runstate := Exited, exitStatus := status)
    {
      hide MembersOk, HistoryOk;
      assert s.ready[0] in s.ready;
    }

    method ThreadClose(slot: nat)
      requires tcb.Length == THREAD_MAX && Linked() && Sized(Abs()) && slot < THREAD_MAX
      modifies tcb, threads, threads.repr, queue, queue.repr
      ensures Linked() && Abs() == Close(old(Abs()), slot)
    {
      hide SlotList.Valid, Without;
      threads.Remove(slot);
      SchedRemove(slot);
      tcb[slot] := Zeroed;
    }

    /** One turn of the loop in `thread_join`, entered when the joining thread runs: the status when the
        join is over, nothing when the thread has been switched away from. */
    method JoinTurn() returns (res: Option<int>)
      requires Valid() && Waiting(Abs())
      modifies Footprint()
      ensures Valid() && Abs() == Poll(old(Abs()))
      ensures var t := old(tcb[tcb[current].cont.slot]);
        res == if t.runstate == Exited then Some(t.exitStatus) else None
      ensures res.Some? ==>
        var c := old(tcb[current].cont); log == old(log) + [Return(c.asked, old(tcb[c.slot].tid), res.value)]
    {
      hide SlotList.Valid, Inv, Consistent;
      ghost var s := Abs();
      ThreadRuns.PollInv(s);
      var slot := tcb[current].cont.slot;
      if tcb[slot].runstate != Exited {
        ThreadYield();
        return None;
      }
      var status := ReapThread(slot);
      return Some(status);
    }

    /** The end of a join: saves the status, then closes the thread. */
    method ReapThread(slot: nat) returns (status: int)
      requires tcb.Length == THREAD_MAX && Linked() && Waiting(Abs()) && slot == tcb[current].cont.slot
      modifies Footprint()
      ensures Linked() && Abs() == Reap(old(Abs())) && status == old(tcb[slot].exitStatus)
    {
      hide SlotList.Valid, Without;
      status := tcb[slot].exitStatus;
      log := log + [Return(tcb[current].cont.asked, tcb[slot].tid, status)];
      ThreadClose(slot);
      tcb[current] := tcb[current].(cont := InUser);
    }

    method ThreadJoin(tid: int) returns (res: Option<int>)
      requires Valid() && AtUser(Abs())
      modifies Footprint()
      ensures Valid() && Abs() == Join(old(Abs()), tid)
      ensures var slot := SlotOf(old(tcb[..]), tid, 0);
        res == if slot == 16 then Some(-19)
               else if old(tcb[..])[slot].runstate == Exited then Some(old(tcb[..])[slot].exitStatus)
               else None
      ensures tid > 0 ==>
        log == old(log) + if res.Some? && SlotOf(old(tcb[..]), tid, 0) < 16 then [Return(tid, tid, res.value)] else []
    {
      hide SlotList.Valid, Inv, Consistent;
      ghost var s := Abs();
      JoinLog(s, tid);
      var slot := FindThread(tid);
      if slot == THREAD_MAX { return Some(-ESRCH); }
      SetContInv(s, slot, tid);
      tcb[current] := tcb[current].(cont := InJoin(slot, tid));
      assert Abs() == SetCont(s, InJoin(slot, tid));
      res := JoinTurn();
    }

    lemma JoinLog(s: State, tid: int)
      requires Inv(s) && AtUser(s)
      ensures var slot := SlotOf(s.tcb, tid, 0);
        slot < THREAD_MAX && s.tcb[slot].runstate != Exited ==> Join(s, tid).log == s.log
    {
      hide QueueOk, MembersOk, HistoryOk;
    }

    /** The process part of `process_start`: its first thread, and the first switch. */
    method ProcessStart()
      requires Valid() && current == NONE && queue.slots == []
      requires nextTid < INT_MAX && SlotOf(tcb[..], 0, 0) < THREAD_MAX
      modifies Footprint()
      ensures Valid() && Abs() == Threads.Schedule(Create(old(Abs())))
    {
      hide SlotList.Valid;
      var tid := ThreadCreate();
      Schedule();
    }
  }
}
