/**
 The data race program: n threads each add 1 to five shared counters `count` times. Two counters are read
 and then written without protection, one is updated atomically, two are protected by a spin mutex.
 */
module DataRace {

  const WORD: nat := 0x1_0000_0000
  /** Steps of one round of `thread_main`. */
  const ROUND: nat := 11

  datatype Config = Config(n: nat, count: nat)
  datatype Thread = Thread(round: nat, pc: nat, tmp: nat)

  /** `lock` is the mutex's atomic flag. */
  datatype State = State(split: nat, oneline: nat, atomic: nat, lock: bool, splitMtx: nat, onelineMtx: nat,
                         threads: seq<Thread>)

  function Init(c: Config): State {
    State(0, 0, 0, false, 0, 0, seq(c.n, _ => Thread(0, 0, 0)))
  }

  predicate Shape(c: Config, s: State) {
    |s.threads| == c.n && forall t :: 0 <= t < c.n ==> s.threads[t].pc < ROUND
  }

  predicate Done(c: Config, s: State, t: nat)
    requires Shape(c, s) && t < c.n
  {
    s.threads[t].round >= c.count
  }

  predicate AllDone(c: Config, s: State)
    requires Shape(c, s)
  {
    forall t :: 0 <= t < c.n ==> Done(c, s, t)
  }

  function Next(th: Thread): Thread {
    if th.pc + 1 == ROUND then Thread(th.round + 1, 0, th.tmp) else th.(pc := th.pc + 1)
  }

  function Inc(x: nat): nat {
    (x + 1) % WORD
  }

  /** Shared memory after a step of thread `th`. */
  function Store(s: State, th: Thread): State {
    match th.pc
    case 1 => s.(split := Inc(th.tmp))
    case 3 => s.(oneline := Inc(th.tmp))
    case 4 => s.(atomic := Inc(s.atomic))
    case 5 => s.(lock := true)
    case 7 => s.(splitMtx := Inc(th.tmp))
    case 9 => s.(onelineMtx := Inc(th.tmp))
    case 10 => s.(lock := false)
    case _ => s
  }

  /** Register of thread `th` after the step. */
  function Load(s: State, th: Thread): nat {
    match th.pc
    case 0 => s.split
    case 2 => s.oneline
    case 6 => s.splitMtx
    case 8 => s.onelineMtx
    case _ => th.tmp
  }

  /** A thread that is done, or that finds the mutex taken, changes nothing. */
  function Step(c: Config, s: State, t: nat): (s': State)
    requires Shape(c, s) && t < c.n
    ensures Shape(c, s')
  {
    var th := s.threads[t];
    if Done(c, s, t) || (th.pc == 5 && s.lock) then s
    else Store(s, th).(threads := s.threads[t := Next(th.(tmp := Load(s, th)))])
  }

  predicate Schedule(c: Config, sched: seq<nat>) {
    forall i :: 0 <= i < |sched| ==> sched[i] < c.n
  }

  function Exec(c: Config, s: State, sched: seq<nat>): (s': State)
    requires Shape(c, s) && Schedule(c, sched)
    ensures Shape(c, s')
    decreases |sched|
  {
    if sched == [] then s else Step(c, Exec(c, s, sched[..|sched| - 1]), sched[|sched| - 1])
  }

  // ---------------------------------------------------------------------------------------------
  // Counting writes

  /** How often a thread has passed instruction `k`. */
  function Passed(th: Thread, k: nat): nat {
    th.round + (if th.pc > k then 1 else 0)
  }

  function Writes(threads: seq<Thread>, k: nat): nat {
    if threads == [] then 0 else Passed(threads[0], k) + Writes(threads[1..], k)
  }

  lemma {:induction false} WritesUpdate(threads: seq<Thread>, k: nat, t: nat, th: Thread)
    requires t < |threads|
    ensures Writes(threads[t := th], k) == Writes(threads, k) - Passed(threads[t], k) + Passed(th, k)
  {
    if t == 0 {
      assert threads[t := th][1..] == threads[1..];
    } else {
      assert threads[t := th][1..] == threads[1..][t - 1 := th];
      WritesUpdate(threads[1..], k, t - 1, th);
    }
  }

  lemma {:induction false} WritesUniform(threads: seq<Thread>, k: nat, x: nat)
    requires forall i :: 0 <= i < |threads| ==> Passed(threads[i], k) == x
    ensures Writes(threads, k) == |threads| * x
  {
    if threads != [] {
      WritesUniform(threads[1..], k, x);
      assert |threads| * x == (|threads| - 1) * x + x;
    }
  }

  lemma {:induction false} WritesBound(threads: seq<Thread>, k: nat, x: nat)
    requires forall i :: 0 <= i < |threads| ==> Passed(threads[i], k) <= x
    ensures Writes(threads, k) <= |threads| * x
  {
    if threads != [] {
      WritesBound(threads[1..], k, x);
      assert |threads| * x == (|threads| - 1) * x + x;
    }
  }

  lemma {:induction false} OneWrite(threads: seq<Thread>, k: nat, t: nat)
    requires t < |threads|
    ensures Passed(threads[t], k) <= Writes(threads, k)
  {
    if t > 0 { OneWrite(threads[1..], k, t - 1); }
  }

  /** A real step passes exactly the instruction it executes. */
  lemma StepWrites(c: Config, s: State, t: nat, k: nat)
    requires Shape(c, s) && t < c.n && k + 1 < ROUND
    ensures Writes(Step(c, s, t).threads, k)
         == Writes(s.threads, k) + (if Step(c, s, t) != s && s.threads[t].pc == k then 1 else 0)
  {
    var s' := Step(c, s, t);
    if s' != s {
      WritesUpdate(s.threads, k, t, s'.threads[t]);
      assert s'.threads == s.threads[t := s'.threads[t]];
    }
  }

  // ---------------------------------------------------------------------------------------------
  // The mutex and the counters it protects

  predicate Inside(th: Thread) {
    6 <= th.pc <= 10
  }

  ghost predicate Exclusive(c: Config, s: State)
    requires Shape(c, s)
  {
    && (forall t :: 0 <= t < c.n && Inside(s.threads[t]) ==> s.lock)
    && (s.lock ==> exists t :: 0 <= t < c.n && Inside(s.threads[t]))
    && (forall t, u :: 0 <= t < c.n && 0 <= u < c.n && Inside(s.threads[t]) && Inside(s.threads[u]) ==> t == u)
  }

  ghost predicate Rounds(c: Config, s: State)
    requires Shape(c, s)
  {
    forall t :: 0 <= t < c.n ==>
      s.threads[t].round <= c.count && (s.threads[t].round == c.count ==> s.threads[t].pc == 0)
  }

  /** Each protected counter is the number of its writes, and a register read inside the mutex is current. */
  ghost predicate Exact(c: Config, s: State)
    requires Shape(c, s)
  {
    && s.splitMtx == Writes(s.threads, 7) % WORD
    && s.onelineMtx == Writes(s.threads, 9) % WORD
    && s.atomic == Writes(s.threads, 4) % WORD
    && (forall t :: 0 <= t < c.n && s.threads[t].pc == 7 ==> s.threads[t].tmp == s.splitMtx)
    && (forall t :: 0 <= t < c.n && s.threads[t].pc == 9 ==> s.threads[t].tmp == s.onelineMtx)
  }

  ghost predicate Inv(c: Config, s: State) {
    Shape(c, s) && Exclusive(c, s) && Rounds(c, s) && Exact(c, s)
  }

  lemma InitInv(c: Config)
    ensures Inv(c, Init(c))
  {
    WritesUniform(Init(c).threads, 7, 0);
    WritesUniform(Init(c).threads, 9, 0);
    WritesUniform(Init(c).threads, 4, 0);
  }

  lemma StepExclusive(c: Config, s: State, t: nat)
    requires Inv(c, s) && t < c.n
    ensures Exclusive(c, Step(c, s, t))
  {
    var s' := Step(c, s, t);
    if s' != s && s'.lock {
      if s.threads[t].pc == 5 {
        assert Inside(s'.threads[t]);
      } else {
        var u :| 0 <= u < c.n && Inside(s.threads[u]);
        assert Inside(s'.threads[u]);
      }
    }
  }

  lemma IncMod(x: nat)
    ensures Inc(x % WORD) == (x + 1) % WORD
  {
  }

  lemma StepExact(c: Config, s: State, t: nat)
    requires Inv(c, s) && t < c.n
    ensures Exact(c, Step(c, s, t))
  {
    hide Writes;
    var s', th := Step(c, s, t), s.threads[t];
    StepWrites(c, s, t, 7);
    StepWrites(c, s, t, 9);
    StepWrites(c, s, t, 4);
    IncMod(Writes(s.threads, 7));
    IncMod(Writes(s.threads, 9));
    IncMod(Writes(s.threads, 4));
    if s' != s {
      forall u | 0 <= u < c.n && u != t && Inside(s.threads[u]) ensures th.pc != 7 && th.pc != 9 {
        assert !Inside(th);
      }
    }
  }

  lemma StepInv(c: Config, s: State, t: nat)
    requires Inv(c, s) && t < c.n
    ensures Inv(c, Step(c, s, t))
  {
    StepExclusive(c, s, t);
    StepExact(c, s, t);
  }

  lemma {:induction false} ReachableInv(c: Config, sched: seq<nat>)
    requires Schedule(c, sched)
    ensures Inv(c, Exec(c, Init(c), sched))
    decreases |sched|
  {
    if sched == [] {
      InitInv(c);
    } else {
      ReachableInv(c, sched[..|sched| - 1]);
      StepInv(c, Exec(c, Init(c), sched[..|sched| - 1]), sched[|sched| - 1]);
    }
  }

  /** For every interleaving: at most one thread is inside the mutex, and when all threads are done the
      atomic counter and both protected counters hold n * count, modulo the word size. */
  lemma ProtectedCountersExact(c: Config, sched: seq<nat>)
    requires Schedule(c, sched)
    ensures var s := Exec(c, Init(c), sched);
            && (forall t, u :: 0 <= t < c.n && 0 <= u < c.n && Inside(s.threads[t]) && Inside(s.threads[u]) ==> t == u)
            && (AllDone(c, s) ==> s.splitMtx == s.onelineMtx == s.atomic == (c.n * c.count) % WORD)
  {
    var s := Exec(c, Init(c), sched);
    ReachableInv(c, sched);
    if AllDone(c, s) {
      FinalPassed(c, s);
      WritesUniform(s.threads, 7, c.count);
      WritesUniform(s.threads, 9, c.count);
      WritesUniform(s.threads, 4, c.count);
    }
  }

  lemma FinalPassed(c: Config, s: State)
    requires Shape(c, s) && Rounds(c, s) && AllDone(c, s)
    ensures forall t, k :: 0 <= t < c.n ==> Passed(s.threads[t], k) == c.count
  {
    forall t, k | 0 <= t < c.n ensures Passed(s.threads[t], k) == c.count {
      assert Done(c, s, t);
    }
  }

  // ---------------------------------------------------------------------------------------------
  // The unprotected counters: `o` is the instruction that reads, `o + 1` the one that writes

  function Val(s: State, o: nat): nat {
    if o == 0 then s.split else s.oneline
  }

  predicate Racy(o: nat) {
    o == 0 || o == 2
  }

  /** Neither the counter nor a register that is about to be written back exceeds the writes so far. */
  ghost predicate Upper(c: Config, s: State, o: nat)
    requires Shape(c, s)
  {
    && Val(s, o) <= Writes(s.threads, o + 1)
    && (forall t :: 0 <= t < c.n && s.threads[t].pc == o + 1 ==> s.threads[t].tmp <= Writes(s.threads, o + 1))
  }

  /** `w` may be the last writer: if it has written twice, the counter is at least 2. */
  predicate LastWriter(c: Config, s: State, o: nat, w: nat)
    requires Shape(c, s) && w < c.n
  {
    Passed(s.threads[w], o + 1) >= 1 && (Passed(s.threads[w], o + 1) >= 2 ==> Val(s, o) >= 2)
  }

  ghost predicate Lower(c: Config, s: State, o: nat)
    requires Shape(c, s)
  {
    && (Writes(s.threads, o + 1) > 0 ==> Val(s, o) >= 1)
    && (forall t :: 0 <= t < c.n && s.threads[t].pc == o + 1 && s.threads[t].round >= 1 ==> s.threads[t].tmp >= 1)
    && (Writes(s.threads, o + 1) > 0 ==> exists w :: 0 <= w < c.n && LastWriter(c, s, o, w))
  }

  ghost predicate RaceInv(c: Config, s: State, o: nat) {
    Shape(c, s) && Rounds(c, s) && Upper(c, s, o) && Lower(c, s, o)
  }

  /** Effect of a real step on the racy counter and on the register of the thread. */
  lemma RaceStep(c: Config, s: State, t: nat, o: nat)
    requires Racy(o) && Shape(c, s) && t < c.n && Step(c, s, t) != s
    ensures var s', th := Step(c, s, t), s.threads[t];
            && Val(s', o) == (if th.pc == o + 1 then Inc(th.tmp) else Val(s, o))
            && s'.threads == s.threads[t := s'.threads[t]]
            && (th.pc == o ==>
                  && s'.threads[t].tmp == Val(s, o)
                  && s'.threads[t].pc == o + 1 && s'.threads[t].round == th.round)
            && (s'.threads[t].pc == o + 1 ==> th.pc == o)
            && Passed(s'.threads[t], o + 1) == Passed(th, o + 1) + (if th.pc == o + 1 then 1 else 0)
  {
  }

  lemma StepUpper(c: Config, s: State, t: nat, o: nat)
    requires Racy(o) && RaceInv(c, s, o) && t < c.n && c.n * c.count < WORD
    ensures Upper(c, Step(c, s, t), o)
    ensures Step(c, s, t) != s && s.threads[t].pc == o + 1 ==> Inc(s.threads[t].tmp) == s.threads[t].tmp + 1
  {
    hide Step, Lower, Rounds, Writes, Passed;
    var s' := Step(c, s, t);
    if s' != s {
      RaceStep(c, s, t, o);
      StepWrites(c, s, t, o + 1);
      StepRounds(c, s, t);
      WritesFit(c, s', o);
    }
  }

  lemma WritesFit(c: Config, s: State, o: nat)
    requires Racy(o) && Shape(c, s) && Rounds(c, s) && c.n * c.count < WORD
    ensures Writes(s.threads, o + 1) < WORD
  {
    hide Writes;
    assert forall i :: 0 <= i < c.n ==> Passed(s.threads[i], o + 1) <= c.count;
    WritesBound(s.threads, o + 1, c.count);
  }

  lemma StepRounds(c: Config, s: State, t: nat)
    requires Shape(c, s) && Rounds(c, s) && t < c.n
    ensures Rounds(c, Step(c, s, t))
  {
  }

  lemma StepLower(c: Config, s: State, t: nat, o: nat)
    requires Racy(o) && RaceInv(c, s, o) && t < c.n && c.n * c.count < WORD
    ensures Lower(c, Step(c, s, t), o)
  {
    hide Step, Rounds, Upper, Writes;
    var s', th := Step(c, s, t), s.threads[t];
    if s' != s {
      RaceStep(c, s, t, o);
      StepUpper(c, s, t, o);
      StepWrites(c, s, t, o + 1);
      OneWrite(s.threads, o + 1, t);
      if th.pc == o + 1 {
        assert LastWriter(c, s', o, t);
      } else if Writes(s.threads, o + 1) > 0 {
        var w :| 0 <= w < c.n && LastWriter(c, s, o, w);
        assert LastWriter(c, s', o, w);
      }
    }
  }

  lemma {:induction false} ReachableRace(c: Config, sched: seq<nat>, o: nat)
    requires Racy(o) && Schedule(c, sched) && c.n * c.count < WORD
    ensures RaceInv(c, Exec(c, Init(c), sched), o)
    decreases |sched|
  {
    if sched == [] {
      WritesUniform(Init(c).threads, o + 1, 0);
    } else {
      var s, t := Exec(c, Init(c), sched[..|sched| - 1]), sched[|sched| - 1];
      ReachableRace(c, sched[..|sched| - 1], o);
      StepUpper(c, s, t, o);
      StepLower(c, s, t, o);
    }
  }

  /** For every interleaving: when all threads are done, an unprotected counter holds at most n * count
      and, if each thread counts at least twice, at least 2. */
  lemma RacyCounterBounds(c: Config, sched: seq<nat>, o: nat)
    requires Racy(o) && Schedule(c, sched) && c.n * c.count < WORD
    ensures var s := Exec(c, Init(c), sched);
            AllDone(c, s) ==>
              Val(s, o) <= c.n * c.count && (c.n >= 1 && c.count >= 2 ==> Val(s, o) >= 2)
  {
    var s := Exec(c, Init(c), sched);
    ReachableRace(c, sched, o);
    if AllDone(c, s) {
      FinalPassed(c, s);
      WritesUniform(s.threads, o + 1, c.count);
      if c.n >= 1 && c.count >= 2 {
        OneWrite(s.threads, o + 1, 0);
        var w :| 0 <= w < c.n && LastWriter(c, s, o, w);
      }
    }
  }

  // ---------------------------------------------------------------------------------------------
  // The lower bound is attained

  function Pos(th: Thread): nat {
    th.round * ROUND + th.pc
  }

  /** Only thread `t` can be inside the mutex. */
  predicate Alone(c: Config, s: State, t: nat)
    requires Shape(c, s) && t < c.n
  {
    s.lock == Inside(s.threads[t])
  }

  lemma {:induction false} ExecConcat(c: Config, s: State, a: seq<nat>, b: seq<nat>)
    requires Shape(c, s) && Schedule(c, a) && Schedule(c, b)
    ensures Schedule(c, a + b) && Exec(c, s, a + b) == Exec(c, Exec(c, s, a), b)
    decreases |b|
  {
    if b == [] {
      assert a + b == a;
    } else {
      ExecConcat(c, s, a, b[..|b| - 1]);
      assert (a + b)[..|a + b| - 1] == a + b[..|b| - 1];
    }
  }

  lemma StepAlone(c: Config, s: State, t: nat)
    requires Shape(c, s) && t < c.n && Alone(c, s, t) && !Done(c, s, t)
    ensures var s' := Step(c, s, t);
            && s' != s && Alone(c, s', t) && Pos(s'.threads[t]) == Pos(s.threads[t]) + 1
            && s'.threads == s.threads[t := s'.threads[t]]
            && s'.threads[t].round <= s.threads[t].round + 1
            && (s'.threads[t].round > s.threads[t].round ==> s'.threads[t].pc == 0)
  {
  }

  /** A thread that runs on its own reaches any later position of its program. */
  lemma {:induction false} RunTo(c: Config, s: State, t: nat, goal: nat, o: nat) returns (sched: seq<nat>)
    requires Racy(o) && Shape(c, s) && t < c.n && Alone(c, s, t) && Pos(s.threads[t]) <= goal <= c.count * ROUND
    ensures Schedule(c, sched)
    ensures var s' := Exec(c, s, sched);
            && Alone(c, s', t) && Pos(s'.threads[t]) == goal && s'.threads == s.threads[t := s'.threads[t]]
            && Passed(s'.threads[t], o + 1) >= Passed(s.threads[t], o + 1)
            && (Passed(s'.threads[t], o + 1) == Passed(s.threads[t], o + 1) ==> Val(s', o) == Val(s, o))
    decreases goal - Pos(s.threads[t])
  {
    hide Step;
    if Pos(s.threads[t]) == goal {
      sched := [];
      assert s.threads[t := s.threads[t]] == s.threads;
    } else {
      PosNotDone(c, s, t);
      StepAlone(c, s, t);
      RaceStep(c, s, t, o);
      var s1 := Step(c, s, t);
      var rest := RunTo(c, s1, t, goal, o);
      ExecOne(c, s, t);
      ExecConcat(c, s, [t], rest);
      sched := [t] + rest;
      var s' := Exec(c, s1, rest);
      assert s1.threads[t := s'.threads[t]] == s.threads[t := s'.threads[t]];
    }
  }

  lemma ExecOne(c: Config, s: State, t: nat)
    requires Shape(c, s) && t < c.n
    ensures Exec(c, s, [t]) == Step(c, s, t)
  {
    assert [t][..0] == [];
  }

  lemma PosNotDone(c: Config, s: State, t: nat)
    requires Shape(c, s) && t < c.n && Pos(s.threads[t]) < c.count * ROUND
    ensures !Done(c, s, t)
  {
  }

  lemma PosInverse(th: Thread, round: nat, pc: nat)
    requires th.pc < ROUND && pc < ROUND && Pos(th) == round * ROUND + pc
    ensures th.round == round && th.pc == pc
  {
  }

  /** Thread 0 has read the zero and waits to write. */
  lemma ZeroIsRead(c: Config, o: nat) returns (sched: seq<nat>)
    requires Racy(o) && c.n >= 2 && c.count >= 2 && c.n * c.count < WORD
    ensures Schedule(c, sched)
    ensures var s := Exec(c, Init(c), sched); !s.lock && s.threads == Init(c).threads[0 := Thread(0, o + 1, 0)]
  {
    hide Exec;
    var s0 := Init(c);
    var a := RunTo(c, s0, 0, o, o);
    var s1 := Exec(c, s0, a);
    PosInverse(s1.threads[0], 0, o);
    ReachableRace(c, a, o);
    WritesUniform(s1.threads, o + 1, 0);
    var s2 := Step(c, s1, 0);
    ExecOne(c, s1, 0);
    ExecConcat(c, s0, a, [0]);
    assert s2.threads[0] == Thread(0, o + 1, 0);
    sched := a + [0];
  }

  /** Thread 0 is about to overwrite the counter with 1; thread 1 is about to start its last read. */
  lemma Setup(c: Config, o: nat) returns (sched: seq<nat>)
    requires Racy(o) && c.n >= 2 && c.count >= 2 && c.n * c.count < WORD
    ensures Schedule(c, sched)
    ensures var s := Exec(c, Init(c), sched);
            && !s.lock
            && s.threads == Init(c).threads[0 := Thread(0, o + 1, 0)][1 := s.threads[1]]
            && s.threads[1].round == c.count - 1 && s.threads[1].pc == o
  {
    hide Exec;
    var s0 := Init(c);
    var a := ZeroIsRead(c, o);
    var s2 := Exec(c, s0, a);
    var b := RunTo(c, s2, 1, (c.count - 1) * ROUND + o, o);
    ExecConcat(c, s0, a, b);
    sched := a + b;
    var s3 := Exec(c, s2, b);
    PosInverse(s3.threads[1], c.count - 1, o);
    assert s3.threads == s0.threads[0 := Thread(0, o + 1, 0)][1 := s3.threads[1]];
  }

  /** Threads `from..n`, none of them inside the mutex, run to their ends one after the other. */
  lemma {:induction false} FinishFrom(c: Config, s: State, from: nat, o: nat) returns (sched: seq<nat>)
    requires Racy(o) && Shape(c, s) && Rounds(c, s) && from <= c.n && !s.lock
    requires forall t :: from <= t < c.n ==> !Inside(s.threads[t])
    ensures Schedule(c, sched)
    ensures var s' := Exec(c, s, sched);
            && !s'.lock
            && (forall t :: 0 <= t < from ==> s'.threads[t] == s.threads[t])
            && (forall t :: from <= t < c.n ==> Done(c, s', t))
    decreases c.n - from
  {
    if from == c.n {
      sched := [];
    } else {
      PosBound(c, s, from);
      var a := RunTo(c, s, from, c.count * ROUND, o);
      var s1 := Exec(c, s, a);
      PosInverse(s1.threads[from], c.count, 0);
      var b := FinishFrom(c, s1, from + 1, o);
      ExecConcat(c, s, a, b);
      sched := a + b;
    }
  }

  lemma PosBound(c: Config, s: State, t: nat)
    requires Shape(c, s) && Rounds(c, s) && t < c.n
    ensures Pos(s.threads[t]) <= c.count * ROUND
  {
    var th := s.threads[t];
    if th.round < c.count { assert (th.round + 1) * ROUND <= c.count * ROUND; }
  }

  /** Thread 0 has overwritten the counter with 1, and thread 1 has read that for its last round. */
  lemma OneIsRead(c: Config, o: nat) returns (sched: seq<nat>)
    requires Racy(o) && c.n >= 2 && c.count >= 2 && c.n * c.count < WORD
    ensures Schedule(c, sched)
    ensures var s := Exec(c, Init(c), sched);
            && !s.lock && |s.threads| == c.n
            && s.threads[1] == Thread(c.count - 1, o + 1, 1) && s.threads[0] == Thread(0, o + 2, 0)
            && forall t :: 2 <= t < c.n ==> s.threads[t] == Thread(0, 0, 0)
  {
    hide Exec;
    var a := Setup(c, o);
    var s1 := Exec(c, Init(c), a);
    var s2 := Step(c, s1, 0);
    var s3 := Step(c, s2, 1);
    ExecOne(c, s1, 0);
    ExecOne(c, s2, 1);
    ExecConcat(c, Init(c), a, [0]);
    ExecConcat(c, Init(c), a + [0], [1]);
    assert Val(s2, o) == 1;
    assert s3.threads[1] == Thread(c.count - 1, o + 1, 1) && s3.threads[0] == Thread(0, o + 2, 0) && !s3.lock;
    sched := a + [0] + [1];
  }

  /** Thread 1 has read a 1 for its last round, and all other threads are done. */
  lemma LastReadIsOne(c: Config, o: nat) returns (sched: seq<nat>)
    requires Racy(o) && c.n >= 2 && c.count >= 2 && c.n * c.count < WORD
    ensures Schedule(c, sched)
    ensures var s := Exec(c, Init(c), sched);
            && !s.lock
            && s.threads[1] == Thread(c.count - 1, o + 1, 1)
            && forall t :: 0 <= t < c.n && t != 1 ==> Done(c, s, t)
  {
    var a := OneIsRead(c, o);
    var s3 := Exec(c, Init(c), a);
    ReachableInv(c, a);
    PosBound(c, s3, 0);
    hide Exec;
    var b := RunTo(c, s3, 0, c.count * ROUND, o);
    var s4 := Exec(c, s3, b);
    ExecConcat(c, Init(c), a, b);
    PosInverse(s4.threads[0], c.count, 0);
    ReachableInv(c, a + b);
    var d := FinishFrom(c, s4, 2, o);
    ExecConcat(c, Init(c), a + b, d);
    sched := a + b + d;
  }

  lemma WriteBack(c: Config, s: State, t: nat, o: nat)
    requires Racy(o) && Shape(c, s) && t < c.n && s.threads[t].pc == o + 1 && !Done(c, s, t)
    ensures var s' := Step(c, s, t);
            && Val(s', o) == Inc(s.threads[t].tmp) && s'.lock == s.lock
            && s'.threads == s.threads[t := s.threads[t].(pc := o + 2)]
  {
  }

  /** With two or more threads some interleaving really loses all but two of the increments. */
  lemma TwoIsAttained(c: Config, o: nat) returns (sched: seq<nat>)
    requires Racy(o) && c.n >= 2 && c.count >= 2 && c.n * c.count < WORD
    ensures Schedule(c, sched)
    ensures var s := Exec(c, Init(c), sched); AllDone(c, s) && Val(s, o) == 2
  {
    hide Exec, Step;
    var a := LastReadIsOne(c, o);
    var s1 := Exec(c, Init(c), a);
    var s2 := Step(c, s1, 1);
    WriteBack(c, s1, 1, o);
    ExecOne(c, s1, 1);
    ExecConcat(c, Init(c), a, [1]);
    assert Val(s2, o) == 2 && s2.threads[1] == Thread(c.count - 1, o + 2, 1) && !s2.lock;
    ReachableInv(c, a + [1]);
    PosBound(c, s2, 1);
    var b := RunTo(c, s2, 1, c.count * ROUND, o);
    var s3 := Exec(c, s2, b);
    PosInverse(s3.threads[1], c.count, 0);
    ExecConcat(c, Init(c), a + [1], b);
    sched := a + [1] + b;
    forall t | 0 <= t < c.n ensures Done(c, s3, t) {
      if t != 1 { assert s3.threads[t] == s1.threads[t] && Done(c, s1, t); }
    }
  }

  // ---------------------------------------------------------------------------------------------
  // Every run can go on until all threads are done, and takes a bounded number of real steps

  /** The thread's next step neither spins nor lies behind its end. */
  predicate Enabled(c: Config, s: State, t: nat)
    requires Shape(c, s) && t < c.n
  {
    !Done(c, s, t) && !(s.threads[t].pc == 5 && s.lock)
  }

  /** Steps all threads have taken. */
  function Taken(threads: seq<Thread>): nat {
    if threads == [] then 0 else Pos(threads[0]) + Taken(threads[1..])
  }

  lemma {:induction false} TakenUpdate(threads: seq<Thread>, t: nat, th: Thread)
    requires t < |threads|
    ensures Taken(threads[t := th]) == Taken(threads) - Pos(threads[t]) + Pos(th)
  {
    if t == 0 {
      assert threads[t := th][1..] == threads[1..];
    } else {
      assert threads[t := th][1..] == threads[1..][t - 1 := th];
      TakenUpdate(threads[1..], t - 1, th);
    }
  }

  lemma {:induction false} TakenBound(threads: seq<Thread>, count: nat)
    requires forall i :: 0 <= i < |threads| ==> threads[i].round <= count && threads[i].pc < ROUND
    requires forall i :: 0 <= i < |threads| && threads[i].round == count ==> threads[i].pc == 0
    ensures Taken(threads) <= |threads| * (count * ROUND)
    ensures (forall i :: 0 <= i < |threads| ==> threads[i].round == count) ==>
      Taken(threads) == |threads| * (count * ROUND)
  {
    if threads != [] {
      TakenBound(threads[1..], count);
      assert forall i :: 0 < i < |threads| ==> threads[i] == threads[1..][i - 1];
      assert |threads| * (count * ROUND) == (|threads| - 1) * (count * ROUND) + count * ROUND;
    }
  }

  lemma {:induction false} TakenZero(threads: seq<Thread>)
    requires forall i :: 0 <= i < |threads| ==> threads[i] == Thread(0, 0, 0)
    ensures Taken(threads) == 0
  {
    if threads != [] {
      TakenZero(threads[1..]);
    }
  }

  lemma StepTaken(c: Config, s: State, t: nat)
    requires Inv(c, s) && t < c.n
    ensures Taken(Step(c, s, t).threads) == Taken(s.threads) + (if Enabled(c, s, t) then 1 else 0)
  {
    hide Exclusive, Exact, Taken;
    if Enabled(c, s, t) {
      var th := Step(c, s, t).threads[t];
      assert Step(c, s, t).threads == s.threads[t := th];
      TakenUpdate(s.threads, t, th);
    }
  }

  /** Number of steps of a schedule that neither spun nor lay behind a thread's end. */
  function Progress(c: Config, s: State, sched: seq<nat>): nat
    requires Shape(c, s) && Schedule(c, sched)
    decreases |sched|
  {
    if sched == [] then 0
    else
      var before := sched[..|sched| - 1];
      Progress(c, s, before) + (if Enabled(c, Exec(c, s, before), sched[|sched| - 1]) then 1 else 0)
  }

  lemma {:induction false} ProgressIsTaken(c: Config, sched: seq<nat>)
    requires Schedule(c, sched)
    ensures Progress(c, Init(c), sched) == Taken(Exec(c, Init(c), sched).threads)
    decreases |sched|
  {
    if sched == [] {
      TakenZero(Init(c).threads);
    } else {
      var before := sched[..|sched| - 1];
      ProgressIsTaken(c, before);
      ReachableInv(c, before);
      StepTaken(c, Exec(c, Init(c), before), sched[|sched| - 1]);
    }
  }

  /** In an unfinished run some thread can always take a real step: whoever waits, waits for one inside. */
  lemma CanGoOn(c: Config, s: State) returns (u: nat)
    requires Inv(c, s) && !AllDone(c, s)
    ensures u < c.n && Enabled(c, s, u)
  {
    var t :| 0 <= t < c.n && !Done(c, s, t);
    u := t;
    if !Enabled(c, s, t) {
      var w :| 0 <= w < c.n && Inside(s.threads[w]);
      u := w;
    }
  }

  /** Every run, however it interleaves and spins, takes a bounded number of real steps; and one that cannot
      take another ends with all threads done and every protected counter exact. */
  lemma EveryMaximalRunCounts(c: Config, sched: seq<nat>)
    requires Schedule(c, sched)
    ensures Progress(c, Init(c), sched) <= c.n * (c.count * 11)
    ensures var s := Exec(c, Init(c), sched);
      (forall t :: 0 <= t < c.n ==> !Enabled(c, s, t)) ==>
        && AllDone(c, s)
        && Progress(c, Init(c), sched) == c.n * (c.count * 11)
        && s.splitMtx == s.onelineMtx == s.atomic == (c.n * c.count) % 0x1_0000_0000
  {
    hide Exec, Step, Taken, Progress, Exact, Enabled;
    var s := Exec(c, Init(c), sched);
    ReachableInv(c, sched);
    ProgressIsTaken(c, sched);
    TakenBound(s.threads, c.count);
    ProtectedCountersExact(c, sched);
    if !AllDone(c, s) {
      var u := CanGoOn(c, s);
    } else {
      forall t | 0 <= t < c.n ensures s.threads[t].round == c.count {
        assert Done(c, s, t);
      }
    }
  }
}
