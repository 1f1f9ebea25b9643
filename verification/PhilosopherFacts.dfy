/** The philosophers program in plain numbers: which mutex is held at which of the 21 steps of a round, who can eat
    beside whom, and how every run ends. */
module PhilosopherFacts {
  import opened Philosophers

  /** In every reachable state a fork is taken exactly by the philosophers that have picked it up and not put it down:
      the one on its right from step 5 to 18 and the one on its left from 8 to 15, and at a left-handed seat, the last
      one, the other way round; nobody else has it at the same time. The screen is locked exactly during a print. */
  lemma WhoHoldsWhat(c: Config, sched: seq<nat>)
    requires Schedule(c, sched)
    ensures var s := Exec(c, Init(c), sched);
      && (forall f :: 0 <= f < c.n ==> (s.forks[f] <==> exists t :: 0 <= t < c.n && Has(c, s.phils[t].pc, t, f)))
      && (forall f, t, u :: 0 <= f < c.n && 0 <= t < c.n && 0 <= u < c.n ==>
            (Has(c, s.phils[t].pc, t, f) && Has(c, s.phils[u].pc, u, f) ==> t == u))
      && (s.screen <==> exists t :: 0 <= t < c.n && s.phils[t].pc in {1, 3, 6, 9, 12, 14, 17, 20})
      && (forall t, u :: 0 <= t < c.n && 0 <= u < c.n && s.phils[t].pc in {1, 3, 6, 9, 12, 14, 17, 20} ==>
            (s.phils[u].pc in {1, 3, 6, 9, 12, 14, 17, 20} ==> t == u))
      && (forall t :: 0 <= t < c.n ==> s.phils[t].pc < 21
                                       && s.phils[t].meals == s.phils[t].round + if s.phils[t].pc > 10 then 1 else 0)
  {
    var s := Exec(c, Init(c), sched);
    ReachableInv(c, sched);
    forall t, f | 0 <= t < c.n && 0 <= f < c.n ensures Has(c, s.phils[t].pc, t, f) <==> Holds(c, s, t, f) {
    }
    forall t | 0 <= t < c.n ensures HoldsPrint(s.phils[t].pc) <==> s.phils[t].pc in {1, 3, 6, 9, 12, 14, 17, 20} {
      PrintSteps(s.phils[t].pc);
    }
    hide Holds, Has, HoldsPrint, Exec;
  }

  /** Philosopher `t`, at step `pc` of a round, has fork `f`. */
  predicate Has(c: Config, pc: nat, t: nat, f: nat)
    requires t < c.n
  {
    var first, second := if c.left && t == c.n - 1 then (t + 1) % c.n else t,
                         if c.left && t == c.n - 1 then t else (t + 1) % c.n;
    (f == first && 5 <= pc <= 18) || (f == second && 8 <= pc <= 15)
  }

  lemma PrintSteps(pc: nat)
    requires pc < 21
    ensures HoldsPrint(pc) <==> pc in {1, 3, 6, 9, 12, 14, 17, 20}
  {
  }

  /** Neighbours never have both their forks at the same time, and so never eat at the same time. */
  lemma NeighboursTakeTurns(c: Config, sched: seq<nat>, t: nat)
    requires Schedule(c, sched) && t < c.n && c.n >= 2
    ensures var s := Exec(c, Init(c), sched);
      !(8 <= s.phils[t].pc <= 15 && 8 <= s.phils[(t + 1) % c.n].pc <= 15)
  {
    hide Exec, Has;
    WhoHoldsWhat(c, sched);
    var s, u := Exec(c, Init(c), sched), (t + 1) % c.n;
    if 8 <= s.phils[t].pc <= 15 && 8 <= s.phils[u].pc <= 15 {
      EatingHas(c, s.phils[t].pc, t);
      EatingHas(c, s.phils[u].pc, u);
      assert false;
    }
  }

  lemma EatingHas(c: Config, pc: nat, t: nat)
    requires t < c.n && 8 <= pc <= 15
    ensures Has(c, pc, t, t) && Has(c, pc, t, (t + 1) % c.n)
  {
  }

  /** A step changes the state exactly when it is enabled. */
  lemma StepChanges(c: Config, s: State, t: nat)
    requires Shape(c, s) && t < c.n
    ensures Step(c, s, t) != s <==> Enabled(c, s, t)
  {
  }

  /** A table of at least two with a left-hander: when no step of anybody changes anything any more, everybody has
      eaten `loops` times, after exactly 21 effective steps for each meal; and no run takes more. */
  lemma EndOfRun(c: Config, sched: seq<nat>)
    requires c.n >= 2 && c.left && Schedule(c, sched)
    ensures var s := Exec(c, Init(c), sched);
      && Effective(c, sched) <= c.n * (c.loops * 21)
      && ((forall t :: 0 <= t < c.n ==> Step(c, s, t) == s) ==>
            Effective(c, sched) == c.n * (c.loops * 21) && forall t :: 0 <= t < c.n ==> s.phils[t].meals == c.loops)
  {
    var s := Exec(c, Init(c), sched);
    EffectiveIsProgress(c, sched);
    hide Exec, Step, Enabled, Progress, Effective;
    forall t | 0 <= t < c.n ensures Step(c, s, t) != s <==> Enabled(c, s, t) {
      StepChanges(c, s, t);
    }
    EveryMaximalRunFeedsAll(c, sched);
  }

  /** Steps of a run that changed something. */
  function Effective(c: Config, sched: seq<nat>): nat
    requires Schedule(c, sched)
    decreases |sched|
  {
    if sched == [] then 0
    else
      var s := Exec(c, Init(c), sched[..|sched| - 1]);
      Effective(c, sched[..|sched| - 1]) + if Step(c, s, sched[|sched| - 1]) != s then 1 else 0
  }

  lemma {:induction false} EffectiveIsProgress(c: Config, sched: seq<nat>)
    requires Schedule(c, sched)
    ensures Effective(c, sched) == Progress(c, Init(c), sched)
    decreases |sched|
  {
    if sched != [] {
      EffectiveIsProgress(c, sched[..|sched| - 1]);
      StepChanges(c, Exec(c, Init(c), sched[..|sched| - 1]), sched[|sched| - 1]);
      hide Exec, Step, Enabled;
    }
  }

  /** Some run gets stuck, with meals still to come, exactly at a table of one or without a left-hander. */
  lemma StuckIff(c: Config)
    requires c.n >= 1 && c.loops >= 1
    ensures (exists sched :: Schedule(c, sched) && StuckAt(c, Exec(c, Init(c), sched))) <==> c.n == 1 || !c.left
  {
    hide Exec, Step, Enabled;
    DeadlockIff(c);
    if s :| Shape(c, s) && Reachable(c, s) && Deadlocked(c, s) {
      var sched :| Schedule(c, sched) && Exec(c, Init(c), sched) == s;
      DeadlockedIsStuck(c, sched);
    }
    if sched :| Schedule(c, sched) && StuckAt(c, Exec(c, Init(c), sched)) {
      DeadlockedIsStuck(c, sched);
      assert Reachable(c, Exec(c, Init(c), sched));
    }
  }

  ghost predicate StuckAt(c: Config, s: State)
    requires Shape(c, s)
  {
    (forall t :: 0 <= t < c.n ==> Step(c, s, t) == s) && exists t :: 0 <= t < c.n && s.phils[t].meals < c.loops
  }

  lemma DeadlockedIsStuck(c: Config, sched: seq<nat>)
    requires Schedule(c, sched)
    ensures Deadlocked(c, Exec(c, Init(c), sched)) <==> StuckAt(c, Exec(c, Init(c), sched))
  {
    var s := Exec(c, Init(c), sched);
    ReachableInv(c, sched);
    forall t | 0 <= t < c.n ensures Step(c, s, t) != s <==> Enabled(c, s, t) {
      StepChanges(c, s, t);
    }
    hide Exec, Step, ForksHeld, PrintHeld;
    if Deadlocked(c, s) {
      var t :| 0 <= t < c.n && !Done(c, s, t);
      NobodyPrints(c, s);
      BlockedEarly(c, s, t);
      assert s.phils[t].meals < c.loops;
    }
    if AllDone(c, s) { DoneState(c, s); }
  }

  lemma NobodyPrints(c: Config, s: State)
    requires Inv(c, s) && Deadlocked(c, s)
    ensures !s.screen
  {
    if s.screen {
      var u :| 0 <= u < c.n && HoldsPrint(s.phils[u].pc);
      assert Enabled(c, s, u);
      assert false;
    }
  }

  lemma BlockedEarly(c: Config, s: State, t: nat)
    requires Shape(c, s) && t < c.n && !Done(c, s, t) && !Enabled(c, s, t) && !s.screen
    ensures s.phils[t].pc <= 10
  {
  }
}
