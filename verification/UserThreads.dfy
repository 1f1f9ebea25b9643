/** The slots, each with a stack, that user threads are created in: any number of callers allocate and free
    them, interleaved at every test-and-set. */
module UserThreads {

  const THRD_MAX: nat := 8

  /** A caller outside the library, scanning from slot `i` on, owning slot `i`, or refused. */
  datatype Caller = Outside | Scanning(i: nat) | Owns(i: nat) | Refused

  datatype State = State(inuse: seq<bool>, callers: seq<Caller>)

  predicate Shape(s: State) {
    && |s.inuse| == THRD_MAX
    && forall c :: 0 <= c < |s.callers| ==>
         match s.callers[c] case Scanning(i) => i <= THRD_MAX case Owns(i) => i < THRD_MAX case _ => true
  }

  /** One step of caller `c`: it enters `thrd_alloc`, tests and sets the next flag, runs out of slots, frees
      what it owns, or takes note of the refusal. */
  function Step(s: State, c: nat): (t: State)
    requires Shape(s) && c < |s.callers|
    ensures Shape(t) && |t.callers| == |s.callers|
  {
    match s.callers[c]
    case Outside => s.(callers := s.callers[c := Scanning(0)])
    case Refused => s.(callers := s.callers[c := Outside])
    case Owns(i) => State(s.inuse[i := false], s.callers[c := Outside])
    case Scanning(i) =>
      if i == THRD_MAX then s.(callers := s.callers[c := Refused])
      else if s.inuse[i] then s.(callers := s.callers[c := Scanning(i + 1)])
      else State(s.inuse[i := true], s.callers[c := Owns(i)])
  }

  function Init(n: nat): (s: State)
    ensures Shape(s) && |s.callers| == n
  {
    State([false, false, false, false, false, false, false, false], Idle(n))
  }

  function Idle(n: nat): (r: seq<Caller>)
    ensures |r| == n && forall c :: 0 <= c < n ==> r[c] == Outside
  {
    if n == 0 then [] else Idle(n - 1) + [Outside]
  }

  function Exec(s: State, sched: seq<nat>): (t: State)
    requires Shape(s) && forall k :: 0 <= k < |sched| ==> sched[k] < |s.callers|
    ensures Shape(t) && |t.callers| == |s.callers|
    decreases |sched|
  {
    if sched == [] then s else Step(Exec(s, sched[..|sched| - 1]), sched[|sched| - 1])
  }

  ghost predicate OwnersDiffer(s: State) {
    forall c, d :: 0 <= c < d < |s.callers| && s.callers[c].Owns? && s.callers[d].Owns? ==>
      s.callers[c].i != s.callers[d].i
  }

  ghost predicate Marked(s: State)
    requires Shape(s)
  {
    && (forall c :: 0 <= c < |s.callers| && s.callers[c].Owns? ==> s.inuse[s.callers[c].i])
    && (forall i :: 0 <= i < THRD_MAX && s.inuse[i] ==> exists c :: 0 <= c < |s.callers| && s.callers[c] == Owns(i))
  }

  /** A slot is marked exactly while somebody owns it, and never has two owners. */
  ghost predicate Exclusive(s: State)
    requires Shape(s)
  {
    OwnersDiffer(s) && Marked(s)
  }

  lemma StepOwners(s: State, c: nat)
    requires Shape(s) && Exclusive(s) && c < |s.callers|
    ensures OwnersDiffer(Step(s, c))
  {
  }

  lemma StepMarked(s: State, c: nat)
    requires Shape(s) && Exclusive(s) && c < |s.callers|
    ensures Marked(Step(s, c))
  {
    var t := Step(s, c);
    forall i | 0 <= i < THRD_MAX && t.inuse[i]
      ensures exists d :: 0 <= d < |t.callers| && t.callers[d] == Owns(i)
    {
      if s.callers[c] == Scanning(i) && !s.inuse[i] {
        assert t.callers[c] == Owns(i);
      } else {
        var d :| 0 <= d < |s.callers| && s.callers[d] == Owns(i);
        assert t.callers[d] == Owns(i);
      }
    }
  }

  lemma StepExclusive(s: State, c: nat)
    requires Shape(s) && Exclusive(s) && c < |s.callers|
    ensures Exclusive(Step(s, c))
  {
    StepOwners(s, c);
    StepMarked(s, c);
  }

  /** For every interleaving no two callers own the same slot, and with it the same stack. */
  lemma {:induction false} SlotsNeverShared(n: nat, sched: seq<nat>)
    requires forall k :: 0 <= k < |sched| ==> sched[k] < n
    ensures Exclusive(Exec(Init(n), sched))
    ensures var s := Exec(Init(n), sched);
      && |s.inuse| == 8
      && (forall c, d :: 0 <= c < d < n && s.callers[c].Owns? && s.callers[d].Owns? ==>
            s.callers[c].i != s.callers[d].i)
      && (forall i :: 0 <= i < 8 ==> (s.inuse[i] <==> exists c :: 0 <= c < n && s.callers[c] == Owns(i)))
    decreases |sched|
  {
    if sched != [] {
      SlotsNeverShared(n, sched[..|sched| - 1]);
      StepExclusive(Exec(Init(n), sched[..|sched| - 1]), sched[|sched| - 1]);
    }
  }

  // ---------------------------------------------------------------------------------------------
  // When a caller is refused

  lemma {:induction false} ExecFirst(s: State, c: nat, rest: seq<nat>)
    requires Shape(s) && c < |s.callers| && forall k :: 0 <= k < |rest| ==> rest[k] < |s.callers|
    ensures Exec(s, [c] + rest) == Exec(Step(s, c), rest)
    decreases |rest|
  {
    var all := [c] + rest;
    if rest == [] {
      assert all == [c] && all[..0] == [];
      assert Exec(s, []) == s;
    } else {
      ExecFirst(s, c, rest[..|rest| - 1]);
      assert all[..|all| - 1] == [c] + rest[..|rest| - 1];
    }
  }

  lemma {:induction false} ExecConcat(s: State, a: seq<nat>, b: seq<nat>)
    requires Shape(s) && forall k :: 0 <= k < |a + b| ==> (a + b)[k] < |s.callers|
    ensures (forall k :: 0 <= k < |a| ==> a[k] < |s.callers|) && (forall k :: 0 <= k < |b| ==> b[k] < |s.callers|)
    ensures Exec(s, a + b) == Exec(Exec(s, a), b)
    decreases |b|
  {
    assert forall k :: 0 <= k < |a| ==> a[k] == (a + b)[k];
    assert forall k :: 0 <= k < |b| ==> b[k] == (a + b)[|a| + k];
    if b == [] {
      assert a + b == a;
    } else {
      var b' := b[..|b| - 1];
      assert (a + b)[..|a + b| - 1] == a + b';
      ExecConcat(s, a, b');
    }
  }

  /** The flags caller `c` tests in the course of a schedule. */
  function Tests(s: State, c: nat, sched: seq<nat>): seq<bool>
    requires Shape(s) && c < |s.callers| && forall k :: 0 <= k < |sched| ==> sched[k] < |s.callers|
    decreases |sched|
  {
    if sched == [] then []
    else
      var init, last := sched[..|sched| - 1], sched[|sched| - 1];
      var t := Exec(s, init);
      Tests(s, c, init)
      + if last == c && t.callers[c].Scanning? && t.callers[c].i < THRD_MAX then [t.inuse[t.callers[c].i]] else []
  }

  /** Caller `c` takes no step behind the end of its scan. */
  predicate WithinScan(s: State, c: nat, sched: seq<nat>)
    requires Shape(s) && c < |s.callers| && forall k :: 0 <= k < |sched| ==> sched[k] < |s.callers|
    decreases |sched|
  {
    sched == [] ||
    (WithinScan(s, c, sched[..|sched| - 1])
     && (sched[|sched| - 1] == c ==> Exec(s, sched[..|sched| - 1]).callers[c].Scanning?))
  }

  function AllTaken(n: nat): (r: seq<bool>)
    ensures |r| == n && forall i :: 0 <= i < n ==> r[i]
  {
    if n == 0 then [] else AllTaken(n - 1) + [true]
  }

  /** For every interleaving the end of a scan is decided by the flags at the moments they are tested: it takes
      the first slot found free, and is refused if and only if it found each of them taken. */
  lemma {:induction false} ScanDecidedByTests(s: State, c: nat, sched: seq<nat>)
    requires Shape(s) && c < |s.callers| && forall k :: 0 <= k < |sched| ==> sched[k] < |s.callers|
    requires s.callers[c] == Scanning(0) && WithinScan(s, c, sched)
    ensures var t, tests := Exec(s, sched), Tests(s, c, sched);
      match t.callers[c]
      case Scanning(i) => tests == AllTaken(i)
      case Owns(i) => tests == AllTaken(i) + [false]
      case Refused => tests == AllTaken(8)
      case Outside => false
    decreases |sched|
  {
    if sched != [] {
      ScanDecidedByTests(s, c, sched[..|sched| - 1]);
    }
  }

  /** No caller gives a slot back in the course of a schedule. */
  predicate NothingFreed(s: State, sched: seq<nat>)
    requires Shape(s) && forall k :: 0 <= k < |sched| ==> sched[k] < |s.callers|
    decreases |sched|
  {
    sched == [] ||
    (NothingFreed(s, sched[..|sched| - 1]) && !Exec(s, sched[..|sched| - 1]).callers[sched[|sched| - 1]].Owns?)
  }

  /** Every slot a scan has passed is in use, and after a refusal all are. */
  predicate PassedInUse(s: State, c: nat)
    requires Shape(s) && c < |s.callers|
  {
    match s.callers[c]
    case Scanning(i) => forall j :: 0 <= j < i ==> s.inuse[j]
    case Refused => forall j :: 0 <= j < THRD_MAX ==> s.inuse[j]
    case _ => true
  }

  /** However the callers interleave: while nobody gives a slot back, a caller is refused only if every slot is
      in use at that moment. */
  lemma {:induction false} RefusedOnlyIfFull(s: State, c: nat, sched: seq<nat>)
    requires Shape(s) && c < |s.callers| && forall k :: 0 <= k < |sched| ==> sched[k] < |s.callers|
    requires PassedInUse(s, c) && NothingFreed(s, sched)
    ensures PassedInUse(Exec(s, sched), c)
    ensures Exec(s, sched).callers[c] == Refused ==> forall j :: 0 <= j < 8 ==> Exec(s, sched).inuse[j]
    decreases |sched|
  {
    if sched != [] {
      RefusedOnlyIfFull(s, c, sched[..|sched| - 1]);
    }
  }

  // ---------------------------------------------------------------------------------------------
  // A refusal while a slot is free

  /** The steps of caller `c` past the taken slots up to `i`. */
  lemma {:induction false} ScanPast(s: State, c: nat, i: nat) returns (sched: seq<nat>)
    requires Shape(s) && c < |s.callers| && s.callers[c].Scanning? && s.callers[c].i <= i <= THRD_MAX
    requires forall j :: s.callers[c].i <= j < i ==> s.inuse[j]
    ensures forall k :: 0 <= k < |sched| ==> sched[k] == c
    ensures Exec(s, sched) == s.(callers := s.callers[c := Scanning(i)])
    decreases i - s.callers[c].i
  {
    if s.callers[c].i == i {
      sched := [];
      assert s.callers[c := Scanning(i)] == s.callers;
    } else {
      var s1 := Step(s, c);
      var rest := ScanPast(s1, c, i);
      sched := [c] + rest;
      ExecFirst(s, c, rest);
      assert s1.callers[c := Scanning(i)] == s.callers[c := Scanning(i)];
    }
  }

  /** A scan that nobody disturbs takes the first free slot, and is refused only when there is none. */
  lemma UndisturbedScan(s: State, c: nat, i: nat) returns (sched: seq<nat>)
    requires Shape(s) && c < |s.callers| && s.callers[c] == Scanning(0) && i <= 8
    requires (forall j :: 0 <= j < i ==> s.inuse[j]) && (i < 8 ==> !s.inuse[i])
    ensures forall k :: 0 <= k < |sched| ==> sched[k] == c
    ensures Exec(s, sched) == if i == 8 then s.(callers := s.callers[c := Refused])
                              else State(s.inuse[i := true], s.callers[c := Owns(i)])
  {
    var past := ScanPast(s, c, i);
    sched := past + [c];
    assert sched[..|sched| - 1] == past;
    assert s.callers[c := Scanning(i)][c := Refused] == s.callers[c := Refused];
    assert s.callers[c := Scanning(i)][c := Owns(i)] == s.callers[c := Owns(i)];
  }

  /** The first `m` callers own the first `m` slots, the others have not started. */
  predicate Filled(s: State, n: nat, m: nat) {
    && |s.inuse| == THRD_MAX && |s.callers| == n && m <= THRD_MAX && m <= n
    && (forall i :: 0 <= i < THRD_MAX ==> s.inuse[i] == (i < m))
    && (forall c :: 0 <= c < n ==> s.callers[c] == if c < m then Owns(c) else Outside)
  }

  lemma FillOne(s: State, n: nat, m: nat) returns (sched: seq<nat>)
    requires Shape(s) && Filled(s, n, m) && m < THRD_MAX && m < n
    ensures forall k :: 0 <= k < |sched| ==> sched[k] == m
    ensures Filled(Exec(s, sched), n, m + 1)
  {
    var s1 := Step(s, m);
    var scan := UndisturbedScan(s1, m, m);
    ExecFirst(s, m, scan);
    sched := [m] + scan;
  }

  lemma {:induction false} FillSlots(n: nat, m: nat) returns (sched: seq<nat>)
    requires m <= THRD_MAX && m <= n
    ensures forall k :: 0 <= k < |sched| ==> sched[k] < n
    ensures Filled(Exec(Init(n), sched), n, m)
  {
    if m == 0 {
      sched := [];
    } else {
      var before := FillSlots(n, m - 1);
      var more := FillOne(Exec(Init(n), before), n, m - 1);
      hide Exec, Filled;
      sched := before + more;
      ExecConcat(Init(n), before, more);
    }
  }

  /** With one caller more than there are slots, one can be refused while a slot is free: a slot its scan has
      passed is given back behind it. */
  lemma RefusedThoughFree() returns (sched: seq<nat>)
    ensures forall k :: 0 <= k < |sched| ==> sched[k] < 9
    ensures var t := Exec(Init(9), sched); t.callers[8] == Refused && !t.inuse[0]
  {
    var n, c := THRD_MAX + 1, THRD_MAX;
    var fill := FillSlots(n, THRD_MAX);
    var s := Exec(Init(n), fill);
    var s1 := Step(s, c);
    var scan := ScanPast(s1, c, THRD_MAX - 1);
    ExecFirst(s, c, scan);
    var s2 := Exec(s1, scan);
    var s3 := Step(s2, 0);
    var rest := ScanPast(s3, c, THRD_MAX);
    var s4 := Exec(s3, rest);
    assert s4.callers[c] == Scanning(THRD_MAX) && !s4.inuse[0];
    var all := rest + [c];
    assert all[..|all| - 1] == rest;
    ExecFirst(s2, 0, all);
    ExecConcat(s, [c] + scan, [0] + all);
    ExecConcat(Init(n), fill, ([c] + scan) + ([0] + all));
    sched := fill + (([c] + scan) + ([0] + all));
  }
}
