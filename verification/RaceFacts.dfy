/** The data race program in plain numbers: what each of its five counters can end with. */
module RaceFacts {
  import opened DataRace

  /** For every interleaving: never two threads between taking the mutex and giving it back (steps 6 to 10 of 11), and
      at the end the counters updated there, and the atomic one, are the total modulo 2^32. */
  lemma ProtectedTotals(c: Config, sched: seq<nat>)
    requires Schedule(c, sched)
    ensures var s := Exec(c, Init(c), sched);
      && (forall t, u :: 0 <= t < c.n && 0 <= u < c.n ==>
            (6 <= s.threads[t].pc <= 10 && 6 <= s.threads[u].pc <= 10 ==> t == u))
      && ((forall t :: 0 <= t < c.n ==> s.threads[t].round >= c.count) ==>
            s.splitMtx == s.onelineMtx == s.atomic == (c.n * c.count) % 0x1_0000_0000)
  {
    hide Exec;
    ProtectedCountersExact(c, sched);
  }

  /** Without overflow either unprotected counter ends between 2 and the total, when each thread counts to 2 at
      least. */
  lemma RacyTotals(c: Config, sched: seq<nat>)
    requires Schedule(c, sched) && c.n * c.count < 0x1_0000_0000
    ensures var s := Exec(c, Init(c), sched);
      (forall t :: 0 <= t < c.n ==> s.threads[t].round >= c.count) ==>
        && s.split <= c.n * c.count && s.oneline <= c.n * c.count
        && (c.n >= 1 && c.count >= 2 ==> s.split >= 2 && s.oneline >= 2)
  {
    hide Exec;
    RacyCounterBounds(c, sched, 0);
    RacyCounterBounds(c, sched, 2);
  }

  /** And each can end with 2 when there is more than one thread. */
  lemma BothCanEndWithTwo(c: Config) returns (a: seq<nat>, b: seq<nat>)
    requires c.n >= 2 && c.count >= 2 && c.n * c.count < 0x1_0000_0000
    ensures Schedule(c, a) && Schedule(c, b)
    ensures var s := Exec(c, Init(c), a); s.split == 2 && forall t :: 0 <= t < c.n ==> s.threads[t].round >= c.count
    ensures var s := Exec(c, Init(c), b); s.oneline == 2 && forall t :: 0 <= t < c.n ==> s.threads[t].round >= c.count
  {
    hide Exec;
    a := TwoIsAttained(c, 0);
    b := TwoIsAttained(c, 2);
    assert AllDone(c, Exec(c, Init(c), a)) && AllDone(c, Exec(c, Init(c), b));
    forall t | 0 <= t < c.n
      ensures Exec(c, Init(c), a).threads[t].round >= c.count && Exec(c, Init(c), b).threads[t].round >= c.count
    {
      assert Done(c, Exec(c, Init(c), a), t) && Done(c, Exec(c, Init(c), b), t);
    }
  }

  /** The unprotected counters of a thread that has nobody beside it. */
  ghost predicate Undisturbed(s: State) {
    |s.threads| == 1
    && var th := s.threads[0];
    && th.pc < 11
    && s.split == (th.round + if th.pc > 1 then 1 else 0) % 0x1_0000_0000
    && s.oneline == (th.round + if th.pc > 3 then 1 else 0) % 0x1_0000_0000
    && (th.pc == 1 ==> th.tmp == s.split) && (th.pc == 3 ==> th.tmp == s.oneline)
  }

  lemma StepUndisturbed(c: Config, s: State)
    requires Shape(c, s) && c.n == 1 && Undisturbed(s)
    ensures Undisturbed(Step(c, s, 0))
  {
  }

  lemma {:induction false} StaysUndisturbed(c: Config, sched: seq<nat>)
    requires Schedule(c, sched) && c.n == 1
    ensures Undisturbed(Exec(c, Init(c), sched))
    decreases |sched|
  {
    if sched != [] {
      var last := sched[|sched| - 1];
      StaysUndisturbed(c, sched[..|sched| - 1]);
      StepUndisturbed(c, Exec(c, Init(c), sched[..|sched| - 1]));
      assert last == 0;
    }
  }

  /** A thread on its own counts without loss, protected or not. */
  lemma OneThreadExact(c: Config, sched: seq<nat>)
    requires Schedule(c, sched) && c.n == 1
    ensures var s := Exec(c, Init(c), sched);
      s.threads[0].round >= c.count ==>
        s.split == s.oneline == s.atomic == s.splitMtx == s.onelineMtx == c.count % 0x1_0000_0000
  {
    var s := Exec(c, Init(c), sched);
    StaysUndisturbed(c, sched);
    ProtectedTotals(c, sched);
    ReachableInv(c, sched);
    if s.threads[0].round >= c.count {
      assert s.threads[0].round == c.count && s.threads[0].pc == 0;
    }
  }
}
