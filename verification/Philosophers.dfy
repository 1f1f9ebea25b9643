/**
 The dining philosophers program: n threads, one spin mutex per fork and one for the screen, interleaved
 step by step. A step of a thread that finds its mutex taken yields and changes nothing.
 */
module Philosophers {

  datatype Instr = LockA | LockB | UnlockA | UnlockB | LockPrint | UnlockPrint | Eat

  /** One round of `phl_main`. Each `phl_print` call is a lock and an unlock of the print mutex. */
  function Body(pc: nat): Instr {
    match pc
    case 4 => LockA
    case 7 => LockB
    case 10 => Eat
    case 15 => UnlockB
    case 18 => UnlockA
    // think, get hungry, have A, have B, eating, full, B put down, A put down
    case 0 | 2 | 5 | 8 | 11 | 13 | 16 | 19 => LockPrint
    case _ => UnlockPrint
  }

  const ROUND: nat := 21

  datatype Config = Config(n: nat, loops: nat, left: bool)
  datatype Phil = Phil(round: nat, pc: nat, meals: nat)
  datatype State = State(forks: seq<bool>, screen: bool, phils: seq<Phil>)

  predicate LeftHanded(c: Config, i: nat) {
    c.left && i + 1 == c.n
  }

  function ForkRight(c: Config, i: nat): nat {
    i
  }

  function ForkLeft(c: Config, i: nat): nat
    requires i < c.n
  {
    (i + 1) % c.n
  }

  function ForkA(c: Config, i: nat): nat
    requires i < c.n
  {
    if LeftHanded(c, i) then ForkLeft(c, i) else ForkRight(c, i)
  }

  function ForkB(c: Config, i: nat): nat
    requires i < c.n
  {
    if LeftHanded(c, i) then ForkRight(c, i) else ForkLeft(c, i)
  }

  function Init(c: Config): State {
    State(seq(c.n, _ => false), false, seq(c.n, _ => Phil(0, 0, 0)))
  }

  predicate Shape(c: Config, s: State) {
    && |s.forks| == |s.phils| == c.n
    && forall t :: 0 <= t < c.n ==> s.phils[t].pc < ROUND
  }

  predicate Done(c: Config, s: State, t: nat)
    requires Shape(c, s) && t < c.n
  {
    s.phils[t].round >= c.loops
  }

  predicate AllDone(c: Config, s: State)
    requires Shape(c, s)
  {
    forall t :: 0 <= t < c.n ==> Done(c, s, t)
  }

  /** The thread's next instruction does not spin. */
  predicate Enabled(c: Config, s: State, t: nat)
    requires Shape(c, s) && t < c.n
  {
    !Done(c, s, t) &&
    match Body(s.phils[t].pc)
    case LockA => !s.forks[ForkA(c, t)]
    case LockB => !s.forks[ForkB(c, t)]
    case LockPrint => !s.screen
    case _ => true
  }

  function Next(p: Phil): Phil {
    if p.pc + 1 == ROUND then Phil(p.round + 1, 0, p.meals) else p.(pc := p.pc + 1)
  }

  /** One step of thread `t`; a thread that is done, or finds its mutex taken, changes nothing. */
  function Step(c: Config, s: State, t: nat): (s': State)
    requires Shape(c, s) && t < c.n
    ensures Shape(c, s')
  {
    if !Enabled(c, s, t) then s
    else
      var p := s.phils[t];
      match Body(p.pc)
      case LockA => State(s.forks[ForkA(c, t) := true], s.screen, s.phils[t := Next(p)])
      case LockB => State(s.forks[ForkB(c, t) := true], s.screen, s.phils[t := Next(p)])
      case UnlockA => State(s.forks[ForkA(c, t) := false], s.screen, s.phils[t := Next(p)])
      case UnlockB => State(s.forks[ForkB(c, t) := false], s.screen, s.phils[t := Next(p)])
      case LockPrint => State(s.forks, true, s.phils[t := Next(p)])
      case UnlockPrint => State(s.forks, false, s.phils[t := Next(p)])
      case Eat => State(s.forks, s.screen, s.phils[t := Next(p.(meals := p.meals + 1))])
  }

  predicate Schedule(c: Config, sched: seq<nat>) {
    forall i :: 0 <= i < |sched| ==> sched[i] < c.n
  }

  /** The state after threads `sched` took their steps in that order. */
  function Exec(c: Config, s: State, sched: seq<nat>): (s': State)
    requires Shape(c, s) && Schedule(c, sched)
    ensures Shape(c, s')
    decreases |sched|
  {
    if sched == [] then s else Step(c, Exec(c, s, sched[..|sched| - 1]), sched[|sched| - 1])
  }

  ghost predicate Reachable(c: Config, s: State) {
    exists sched :: Schedule(c, sched) && Exec(c, Init(c), sched) == s
  }

  // ---------------------------------------------------------------------------------------------
  // Who holds what

  predicate HoldsA(pc: nat) { 5 <= pc <= 18 }
  predicate HoldsB(pc: nat) { 8 <= pc <= 15 }
  predicate HoldsPrint(pc: nat) { Body(pc).UnlockPrint? }

  predicate Holds(c: Config, s: State, t: nat, f: nat)
    requires Shape(c, s) && t < c.n
  {
    (HoldsA(s.phils[t].pc) && f == ForkA(c, t)) || (HoldsB(s.phils[t].pc) && f == ForkB(c, t))
  }

  /** Mutual exclusion: a locked mutex has exactly one holder, a clear one has none. */
  ghost predicate ForksHeld(c: Config, s: State)
    requires Shape(c, s)
  {
    && (forall t, f :: 0 <= t < c.n && 0 <= f < c.n && Holds(c, s, t, f) ==> s.forks[f])
    && (forall f :: 0 <= f < c.n && s.forks[f] ==> exists t :: 0 <= t < c.n && Holds(c, s, t, f))
    && (forall t, u, f :: 0 <= t < c.n && 0 <= u < c.n && 0 <= f < c.n && Holds(c, s, t, f) && Holds(c, s, u, f) ==>
          t == u)
  }

  ghost predicate PrintHeld(c: Config, s: State)
    requires Shape(c, s)
  {
    && (forall t :: 0 <= t < c.n && HoldsPrint(s.phils[t].pc) ==> s.screen)
    && (s.screen ==> exists t :: 0 <= t < c.n && HoldsPrint(s.phils[t].pc))
    && (forall t, u :: 0 <= t < c.n && 0 <= u < c.n && HoldsPrint(s.phils[t].pc) && HoldsPrint(s.phils[u].pc) ==>
          t == u)
  }

  /** Meals are counted once per round; a thread that is done holds nothing. */
  ghost predicate Counted(c: Config, s: State)
    requires Shape(c, s)
  {
    forall t :: 0 <= t < c.n ==>
      && s.phils[t].round <= c.loops
      && (s.phils[t].round == c.loops ==> s.phils[t].pc == 0)
      && s.phils[t].meals == s.phils[t].round + (if s.phils[t].pc > 10 then 1 else 0)
      && (c.n == 1 ==> s.phils[t].pc <= 7)
  }

  ghost predicate Inv(c: Config, s: State) {
    Shape(c, s) && ForksHeld(c, s) && PrintHeld(c, s) && Counted(c, s)
  }

  lemma InitInv(c: Config)
    ensures Inv(c, Init(c))
  {
  }

  lemma ForksDiffer(c: Config, t: nat)
    requires t < c.n && c.n >= 2
    ensures ForkA(c, t) < c.n && ForkB(c, t) < c.n && ForkA(c, t) != ForkB(c, t)
  {
  }

  lemma ForksAcquired(c: Config, s: State, s': State, t: nat, f0: nat)
    requires Shape(c, s) && Shape(c, s') && ForksHeld(c, s) && t < c.n && f0 < c.n
    requires !s.forks[f0] && s'.forks == s.forks[f0 := true]
    requires forall u, f :: 0 <= u < c.n && 0 <= f < c.n ==>
               (Holds(c, s', u, f) <==> Holds(c, s, u, f) || (u == t && f == f0))
    ensures ForksHeld(c, s')
  {
    forall f | 0 <= f < c.n && s'.forks[f] ensures exists u :: 0 <= u < c.n && Holds(c, s', u, f) {
      if f == f0 {
        assert Holds(c, s', t, f0);
      } else {
        var u :| 0 <= u < c.n && Holds(c, s, u, f);
        assert Holds(c, s', u, f);
      }
    }
  }

  lemma ForksReleased(c: Config, s: State, s': State, t: nat, f0: nat)
    requires Shape(c, s) && Shape(c, s') && ForksHeld(c, s) && t < c.n && f0 < c.n
    requires Holds(c, s, t, f0) && s'.forks == s.forks[f0 := false]
    requires forall u, f :: 0 <= u < c.n && 0 <= f < c.n ==>
               (Holds(c, s', u, f) <==> Holds(c, s, u, f) && !(u == t && f == f0))
    ensures ForksHeld(c, s')
  {
    forall f | 0 <= f < c.n && s'.forks[f] ensures exists u :: 0 <= u < c.n && Holds(c, s', u, f) {
      var u :| 0 <= u < c.n && Holds(c, s, u, f);
      assert Holds(c, s', u, f);
    }
  }

  lemma ForksKept(c: Config, s: State, s': State)
    requires Shape(c, s) && Shape(c, s') && ForksHeld(c, s) && s'.forks == s.forks
    requires forall u, f :: 0 <= u < c.n && 0 <= f < c.n ==> (Holds(c, s', u, f) <==> Holds(c, s, u, f))
    ensures ForksHeld(c, s')
  {
    forall f | 0 <= f < c.n && s'.forks[f] ensures exists u :: 0 <= u < c.n && Holds(c, s', u, f) {
      var u :| 0 <= u < c.n && Holds(c, s, u, f);
      assert Holds(c, s', u, f);
    }
  }

  /** With one fork only, the only philosopher waits for itself. */
  lemma SecondForkFree(c: Config, s: State, t: nat)
    requires Inv(c, s) && t < c.n && Enabled(c, s, t) && s.phils[t].pc == 7
    ensures c.n >= 2
  {
    assert Holds(c, s, t, ForkA(c, t));
  }

  /** How a step changes who holds a fork. */
  lemma StepHolds(c: Config, s: State, t: nat, u: nat, f: nat)
    requires Shape(c, s) && t < c.n && u < c.n && Enabled(c, s, t)
    requires s.phils[t].pc >= 7 ==> c.n >= 2
    ensures Holds(c, Step(c, s, t), u, f)
         == if u != t then Holds(c, s, u, f)
            else match Body(s.phils[t].pc)
              case LockA => Holds(c, s, t, f) || f == ForkA(c, t)
              case LockB => Holds(c, s, t, f) || f == ForkB(c, t)
              case UnlockA => Holds(c, s, t, f) && f != ForkA(c, t)
              case UnlockB => Holds(c, s, t, f) && f != ForkB(c, t)
              case _ => Holds(c, s, t, f)
  {
    if c.n >= 2 { ForksDiffer(c, t); }
  }

  lemma StepForks(c: Config, s: State, t: nat)
    requires Inv(c, s) && t < c.n && Enabled(c, s, t)
    ensures ForksHeld(c, Step(c, s, t))
  {
    var s', instr := Step(c, s, t), Body(s.phils[t].pc);
    if s.phils[t].pc == 7 { SecondForkFree(c, s, t); }
    forall u, f | 0 <= u < c.n && 0 <= f < c.n
      ensures instr.LockA? ==> (Holds(c, s', u, f) <==> Holds(c, s, u, f) || (u == t && f == ForkA(c, t)))
      ensures instr.LockB? ==> (Holds(c, s', u, f) <==> Holds(c, s, u, f) || (u == t && f == ForkB(c, t)))
      ensures instr.UnlockA? ==> (Holds(c, s', u, f) <==> Holds(c, s, u, f) && !(u == t && f == ForkA(c, t)))
      ensures instr.UnlockB? ==> (Holds(c, s', u, f) <==> Holds(c, s, u, f) && !(u == t && f == ForkB(c, t)))
      ensures !instr.LockA? && !instr.LockB? && !instr.UnlockA? && !instr.UnlockB? ==>
                (Holds(c, s', u, f) <==> Holds(c, s, u, f))
    {
      StepHolds(c, s, t, u, f);
    }
    assert instr.UnlockA? ==> Holds(c, s, t, ForkA(c, t));
    assert instr.UnlockB? ==> Holds(c, s, t, ForkB(c, t));
    hide Holds, ForksHeld, PrintHeld, Counted;
    match instr {
      case LockA => ForksAcquired(c, s, s', t, ForkA(c, t));
      case LockB => ForksAcquired(c, s, s', t, ForkB(c, t));
      case UnlockA => ForksReleased(c, s, s', t, ForkA(c, t));
      case UnlockB => ForksReleased(c, s, s', t, ForkB(c, t));
      case _ => ForksKept(c, s, s');
    }
  }

  lemma StepPrint(c: Config, s: State, t: nat)
    requires Inv(c, s) && t < c.n && Enabled(c, s, t)
    ensures PrintHeld(c, Step(c, s, t))
  {
    var s', pc := Step(c, s, t), s.phils[t].pc;
    assert HoldsPrint(s'.phils[t].pc) <==> Body(pc).LockPrint?;
    if s'.screen {
      if Body(pc).LockPrint? {
        assert HoldsPrint(s'.phils[t].pc);
      } else {
        var u :| 0 <= u < c.n && HoldsPrint(s.phils[u].pc);
        assert u != t && s'.phils[u] == s.phils[u];
      }
    }
  }

  lemma StepCounted(c: Config, s: State, t: nat)
    requires Inv(c, s) && t < c.n && Enabled(c, s, t)
    ensures Counted(c, Step(c, s, t))
  {
    if s.phils[t].pc == 7 { SecondForkFree(c, s, t); }
  }

  lemma StepInv(c: Config, s: State, t: nat)
    requires Inv(c, s) && t < c.n
    ensures Inv(c, Step(c, s, t))
  {
    if Enabled(c, s, t) {
      StepForks(c, s, t);
      StepPrint(c, s, t);
      StepCounted(c, s, t);
    }
  }

  lemma {:induction false} ReachableInv(c: Config, sched: seq<nat>)
    requires Schedule(c, sched)
    ensures Inv(c, Exec(c, Init(c), sched))
    decreases |sched|
  {
    if sched == [] {
      InitInv(c);
    } else {
      ReachableInv(c, sched[..|sched| - 1]);
      StepInv(c, Exec(c, Init(c), sched[..|sched| - 1]), sched[|sched| - 1]);
    }
  }

  // ---------------------------------------------------------------------------------------------
  // With a left-hander every thread takes its forks in ascending order

  function Wanted(c: Config, s: State, t: nat): nat
    requires Shape(c, s) && t < c.n
  {
    if s.phils[t].pc <= 4 then ForkA(c, t) else ForkB(c, t)
  }

  lemma AscendingForks(c: Config, t: nat)
    requires t < c.n && c.n >= 2 && c.left
    ensures ForkA(c, t) < ForkB(c, t) < c.n
  {
  }

  /** Whoever blocks a thread is itself enabled or waits for a higher fork. */
  lemma {:induction false} FindEnabled(c: Config, s: State, t: nat) returns (u: nat)
    requires Inv(c, s) && c.n >= 2 && c.left && t < c.n && !Done(c, s, t) && !s.screen
    ensures u < c.n && Enabled(c, s, u)
    decreases c.n - Wanted(c, s, t)
  {
    AscendingForks(c, t);
    if Enabled(c, s, t) {
      u := t;
    } else {
      assert s.phils[t].pc == 4 || s.phils[t].pc == 7;
      var f := Wanted(c, s, t);
      var q :| 0 <= q < c.n && Holds(c, s, q, f);
      AscendingForks(c, q);
      if Enabled(c, s, q) {
        u := q;
      } else {
        assert s.phils[q].pc == 7;
        u := FindEnabled(c, s, q);
      }
    }
  }

  /** Deadlock freedom: with a left-hander some thread of an unfinished table can always move. */
  lemma NoDeadlock(c: Config, s: State) returns (u: nat)
    requires Inv(c, s) && c.n >= 2 && c.left && !AllDone(c, s)
    ensures u < c.n && Enabled(c, s, u)
  {
    if s.screen {
      u :| 0 <= u < c.n && HoldsPrint(s.phils[u].pc);
    } else {
      var t :| 0 <= t < c.n && !Done(c, s, t);
      u := FindEnabled(c, s, t);
    }
  }

  // ---------------------------------------------------------------------------------------------
  // Every non-spinning step brings the end nearer

  function Left(c: Config, p: Phil): int {
    (c.loops - p.round) * ROUND - p.pc
  }

  function Work(c: Config, phils: seq<Phil>): int {
    if phils == [] then 0 else Left(c, phils[0]) + Work(c, phils[1..])
  }

  lemma {:induction false} WorkUpdate(c: Config, phils: seq<Phil>, t: nat, p: Phil)
    requires t < |phils|
    ensures Work(c, phils[t := p]) == Work(c, phils) - Left(c, phils[t]) + Left(c, p)
  {
    if t == 0 {
      assert phils[t := p][1..] == phils[1..];
    } else {
      assert phils[t := p][1..] == phils[1..][t - 1 := p];
      WorkUpdate(c, phils[1..], t - 1, p);
    }
  }

  lemma {:induction false} WorkInit(c: Config, phils: seq<Phil>)
    requires forall i :: 0 <= i < |phils| ==> phils[i] == Phil(0, 0, 0)
    ensures Work(c, phils) == |phils| * (c.loops * ROUND)
  {
    if phils != [] {
      WorkInit(c, phils[1..]);
      assert |phils| * (c.loops * ROUND) == (|phils| - 1) * (c.loops * ROUND) + c.loops * ROUND;
    }
  }

  lemma {:induction false} WorkNonNegative(c: Config, phils: seq<Phil>)
    requires forall i :: 0 <= i < |phils| ==> phils[i].round <= c.loops && phils[i].pc < ROUND
    requires forall i :: 0 <= i < |phils| && phils[i].round == c.loops ==> phils[i].pc == 0
    ensures Work(c, phils) >= 0
    ensures Work(c, phils) == 0 <==> forall i :: 0 <= i < |phils| ==> phils[i].round == c.loops
  {
    if phils != [] {
      WorkNonNegative(c, phils[1..]);
      assert Left(c, phils[0]) >= 0 && (Left(c, phils[0]) == 0 <==> phils[0].round == c.loops);
      assert forall i :: 0 < i < |phils| ==> phils[i] == phils[1..][i - 1];
    }
  }

  /** Number of steps of a schedule that did not spin. */
  function Progress(c: Config, s: State, sched: seq<nat>): nat
    requires Shape(c, s) && Schedule(c, sched)
    decreases |sched|
  {
    if sched == [] then 0
    else
      var before := sched[..|sched| - 1];
      Progress(c, s, before) + (if Enabled(c, Exec(c, s, before), sched[|sched| - 1]) then 1 else 0)
  }

  lemma StepWork(c: Config, s: State, t: nat)
    requires Inv(c, s) && t < c.n
    ensures Work(c, Step(c, s, t).phils) == Work(c, s.phils) - (if Enabled(c, s, t) then 1 else 0)
  {
    hide ForksHeld, PrintHeld, Counted, Work;
    if Enabled(c, s, t) {
      var p' := Step(c, s, t).phils[t];
      assert Step(c, s, t).phils == s.phils[t := p'];
      WorkUpdate(c, s.phils, t, p');
    }
  }

  lemma {:induction false} WorkAccount(c: Config, sched: seq<nat>)
    requires Schedule(c, sched)
    ensures Work(c, Exec(c, Init(c), sched).phils) + Progress(c, Init(c), sched) == c.n * (c.loops * ROUND)
    decreases |sched|
  {
    if sched == [] {
      WorkInit(c, Init(c).phils);
    } else {
      var before := sched[..|sched| - 1];
      WorkAccount(c, before);
      ReachableInv(c, before);
      StepWork(c, Exec(c, Init(c), before), sched[|sched| - 1]);
    }
  }

  /** Every run, however it interleaves and spins, makes a bounded number of real steps; and a run that
      cannot make another one ends with every philosopher having eaten exactly `loops` times. */
  lemma EveryMaximalRunFeedsAll(c: Config, sched: seq<nat>)
    requires c.n >= 2 && c.left && Schedule(c, sched)
    ensures Progress(c, Init(c), sched) <= c.n * (c.loops * ROUND)
    ensures var s := Exec(c, Init(c), sched);
            (forall t :: 0 <= t < c.n ==> !Enabled(c, s, t)) ==>
              && (forall t :: 0 <= t < c.n ==> s.phils[t].meals == c.loops)
              && Progress(c, Init(c), sched) == c.n * (c.loops * ROUND)
  {
    hide Exec, Step, Work, Progress, ForksHeld, PrintHeld, Enabled;
    var s := Exec(c, Init(c), sched);
    ReachableInv(c, sched);
    WorkAccount(c, sched);
    WorkNonNegative(c, s.phils);
    if (forall t :: 0 <= t < c.n ==> !Enabled(c, s, t)) && !AllDone(c, s) {
      var u := NoDeadlock(c, s);
      assert false;
    }
    if AllDone(c, s) { DoneState(c, s); }
  }

  lemma DoneState(c: Config, s: State)
    requires Shape(c, s) && Counted(c, s) && AllDone(c, s)
    ensures forall t :: 0 <= t < c.n ==> s.phils[t].round == c.loops && s.phils[t].meals == c.loops
  {
    forall t | 0 <= t < c.n ensures s.phils[t].round == c.loops && s.phils[t].meals == c.loops {
      assert Done(c, s, t);
    }
  }

  lemma ExecSnoc(c: Config, s: State, sched: seq<nat>, t: nat)
    requires Shape(c, s) && Schedule(c, sched) && t < c.n
    ensures Schedule(c, sched + [t]) && Exec(c, s, sched + [t]) == Step(c, Exec(c, s, sched), t)
  {
    assert (sched + [t])[..|sched + [t]| - 1] == sched;
  }

  /** From every reachable state the table can still be brought to its end. */
  lemma {:induction false} CanFinish(c: Config, sched: seq<nat>) returns (more: seq<nat>)
    requires c.n >= 2 && c.left && Schedule(c, sched)
    ensures Schedule(c, sched + more) && AllDone(c, Exec(c, Init(c), sched + more))
    decreases Work(c, Exec(c, Init(c), sched).phils)
  {
    hide Exec, Step, Work, ForksHeld, PrintHeld, Enabled;
    var s := Exec(c, Init(c), sched);
    ReachableInv(c, sched);
    WorkNonNegative(c, s.phils);
    if AllDone(c, s) {
      more := [];
      assert sched + more == sched;
    } else {
      var u := NoDeadlock(c, s);
      StepWork(c, s, u);
      ExecSnoc(c, Init(c), sched, u);
      ReachableInv(c, sched + [u]);
      WorkNonNegative(c, Step(c, s, u).phils);
      var rest := CanFinish(c, sched + [u]);
      more := [u] + rest;
      assert sched + more == sched + [u] + rest;
    }
  }

  // ---------------------------------------------------------------------------------------------
  // Without one, the table can lock up

  ghost predicate Deadlocked(c: Config, s: State)
    requires Shape(c, s)
  {
    !AllDone(c, s) && forall t :: 0 <= t < c.n ==> !Enabled(c, s, t)
  }

  /** The first `m` philosophers hold fork A and are about to take fork B; the others have not started. */
  function Stage(c: Config, m: nat): State
    requires m <= c.n
  {
    State(seq(c.n, f => f < m), false, seq(c.n, t => if t < m then Phil(0, 7, 0) else Phil(0, 0, 0)))
  }

  lemma {:induction false} ExecConcat(c: Config, s: State, a: seq<nat>, b: seq<nat>)
    requires Shape(c, s) && Schedule(c, a) && Schedule(c, b)
    ensures Schedule(c, a + b) && Exec(c, s, a + b) == Exec(c, Exec(c, s, a), b)
    decreases |b|
  {
    if b == [] {
      assert a + b == a;
    } else {
      ExecConcat(c, s, a, b[..|b| - 1]);
      assert (a + b)[..|a + b| - 1] == a + b[..|b| - 1];
    }
  }

  /** A call of `phl_print` while nobody else prints. */
  lemma PrintAlone(c: Config, s: State, t: nat)
    requires Shape(c, s) && t < c.n && !Done(c, s, t) && !s.screen
    requires Body(s.phils[t].pc).LockPrint? && s.phils[t].pc + 2 < ROUND
    ensures Exec(c, s, [t, t]) == s.(phils := s.phils[t := s.phils[t].(pc := s.phils[t].pc + 2)])
  {
    hide Exec;
    ExecEmpty(c, s);
    ExecSnoc(c, s, [], t);
    ExecSnoc(c, s, [t], t);
    assert [] + [t] == [t] && [t] + [t] == [t, t];
    var s1 := Step(c, s, t);
    assert s1.phils[t].pc == s.phils[t].pc + 1 && Enabled(c, s1, t);
    assert Step(c, s1, t).phils == s.phils[t := s.phils[t].(pc := s.phils[t].pc + 2)];
  }

  lemma ExecEmpty(c: Config, s: State)
    requires Shape(c, s)
    ensures Exec(c, s, []) == s
  {
  }

  lemma TakeFirstFork(c: Config, s: State, t: nat)
    requires Shape(c, s) && t < c.n && s.phils[t] == Phil(0, 4, 0) && c.loops >= 1 && (c.left ==> c.n == 1)
    requires !s.forks[t]
    ensures Step(c, s, t) == State(s.forks[t := true], s.screen, s.phils[t := Phil(0, 5, 0)])
  {
    assert ForkA(c, t) == t;
  }

  /** Philosopher `m` on its own gets as far as holding its first fork. */
  lemma StageStep(c: Config, m: nat)
    requires m < c.n && c.loops >= 1 && (c.left ==> c.n == 1)
    ensures Shape(c, Stage(c, m))
    ensures Exec(c, Stage(c, m), [m, m] + [m, m] + [m] + [m, m]) == Stage(c, m + 1)
  {
    hide Exec, Step;
    var s0 := Stage(c, m);
    var s2 := s0.(phils := s0.phils[m := Phil(0, 2, 0)]);
    var s4 := s0.(phils := s0.phils[m := Phil(0, 4, 0)]);
    var s5 := State(s0.forks[m := true], false, s0.phils[m := Phil(0, 5, 0)]);
    var s7 := State(s0.forks[m := true], false, s0.phils[m := Phil(0, 7, 0)]);
    assert Exec(c, s0, [m, m]) == s2 by { PrintAlone(c, s0, m); }
    assert Exec(c, s2, [m, m]) == s4 by {
      PrintAlone(c, s2, m);
      assert s2.phils[m := Phil(0, 4, 0)] == s4.phils;
    }
    assert Exec(c, s4, [m]) == s5 by {
      TakeFirstFork(c, s4, m);
      ExecEmpty(c, s4);
      ExecSnoc(c, s4, [], m);
      assert [] + [m] == [m];
      assert s4.phils[m := Phil(0, 5, 0)] == s5.phils;
    }
    assert Exec(c, s5, [m, m]) == s7 by {
      PrintAlone(c, s5, m);
      assert s5.phils[m := Phil(0, 7, 0)] == s7.phils;
    }
    assert s7 == Stage(c, m + 1) by {
      assert s7.forks == Stage(c, m + 1).forks && s7.phils == Stage(c, m + 1).phils;
    }
    ExecConcat(c, s0, [m, m], [m, m]);
    ExecConcat(c, s0, [m, m] + [m, m], [m]);
    ExecConcat(c, s0, [m, m] + [m, m] + [m], [m, m]);
  }

  lemma {:induction false} ReachStage(c: Config, m: nat) returns (sched: seq<nat>)
    requires m <= c.n && c.loops >= 1 && (c.left ==> c.n == 1)
    ensures Schedule(c, sched) && Exec(c, Init(c), sched) == Stage(c, m)
  {
    if m == 0 {
      sched := [];
      assert Stage(c, 0) == Init(c);
    } else {
      hide Exec, Stage;
      var before := ReachStage(c, m - 1);
      StageStep(c, m - 1);
      var more := [m - 1, m - 1] + [m - 1, m - 1] + [m - 1] + [m - 1, m - 1];
      ExecConcat(c, Init(c), before, more);
      sched := before + more;
    }
  }

  /** Every table that has work to do can deadlock, unless it seats at least two and has a left-hander. */
  lemma DeadlockIff(c: Config)
    requires c.n >= 1 && c.loops >= 1
    ensures (exists s :: Shape(c, s) && Reachable(c, s) && Deadlocked(c, s)) <==> c.n == 1 || !c.left
  {
    if c.n == 1 || !c.left {
      var sched := ReachStage(c, c.n);
      var s := Stage(c, c.n);
      assert Reachable(c, s);
      assert !Done(c, s, 0);
      assert Deadlocked(c, s);
    } else {
      forall s | Shape(c, s) && Reachable(c, s) ensures !Deadlocked(c, s) {
        var sched :| Schedule(c, sched) && Exec(c, Init(c), sched) == s;
        ReachableInv(c, sched);
        if !AllDone(c, s) {
          var u := NoDeadlock(c, s);
        }
      }
    }
  }
}
