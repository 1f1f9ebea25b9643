/** The arguments on a new process's stack, as the kernel lays them out and the start-up code finds them. */
module ProcessStack {
  import opened ByteTypes
  import opened Common
  import opened CommandLine

  const ADDRESSES: nat := TWO32

  // ---------------------------------------------------------------------------------------------
  // Words and strings in memory

  /** The little-endian word at an address. */
  function WordAt(m: seq<byte>, a: nat): (w: nat)
    requires a + 4 <= |m|
    ensures w < ADDRESSES
  {
    var b0: int, b1: int, b2: int, b3: int := m[a], m[a + 1], m[a + 2], m[a + 3];
    b0 + 0x100 * b1 + 0x1_0000 * b2 + 0x100_0000 * b3
  }

  /** Word `i` of a vector. */
  function Entry(m: seq<byte>, at: nat, i: nat): (w: nat)
    requires at + 4 * i + 4 <= |m|
  {
    WordAt(m, at + 4 * i)
  }

  ghost predicate TextAt(m: seq<byte>, p: nat, t: Text) {
    && p + |t| < |m|
    && m[p + |t|] == 0
    && forall i :: 0 <= i < |t| ==> m[p + i] == t[i]
  }

  lemma {:induction false} TextIsString(m: seq<byte>, p: nat, t: Text)
    requires TextAt(m, p, t)
    ensures StringAt(m, p) == t
    decreases |t|
  {
    if t != [] {
      TextIsString(m, p + 1, t[1..]);
      assert m[p] == t[0] != 0;
    }
  }

  /** Only addresses from `low` up to `high` may differ. */
  ghost predicate Outside(before: seq<byte>, after: seq<byte>, low: int, high: int) {
    |before| == |after| && forall a :: 0 <= a < |after| && !(low <= a < high) ==> after[a] == before[a]
  }

  lemma OutsideThen(a: seq<byte>, b: seq<byte>, c: seq<byte>, low: int, mid: int, high: int)
    requires low <= mid <= high && Outside(a, b, mid, high) && Outside(b, c, low, mid)
    ensures Outside(a, c, low, high)
  {
  }

  method StoreWord(mem: array<byte>, a: nat, v: nat)
    requires a + 4 <= mem.Length && v < ADDRESSES
    modifies mem
    ensures WordAt(mem[..], a) == v && Outside(old(mem[..]), mem[..], a, a + 4)
  {
    var v1 := v / 0x100;
    var v2 := v1 / 0x100;
    var v3 := v2 / 0x100;
    mem[a], mem[a + 1], mem[a + 2], mem[a + 3] := v % 0x100, v1 % 0x100, v2 % 0x100, v3;
  }

  method Push(mem: array<byte>, sp0: nat, v: nat) returns (sp: nat)
    requires 4 <= sp0 <= mem.Length && v < ADDRESSES
    modifies mem
    ensures sp == sp0 - 4 && WordAt(mem[..], sp) == v && Outside(old(mem[..]), mem[..], sp, sp0)
  {
    sp := sp0 - 4;
    StoreWord(mem, sp, v);
  }

  // ---------------------------------------------------------------------------------------------
  // Laying out

  /** Stack slots for a string and its terminator. */
  function Slots(len: nat): (n: nat)
    ensures len < 4 * n <= len + 4
  {
    (len + 1 + 3) / 4
  }

  /** Bytes the first `n` strings take. */
  function StringBytes(args: seq<seq<byte>>, n: nat): nat
    requires n <= |args|
  {
    if n == 0 then 0 else StringBytes(args, n - 1) + 4 * Slots(|args[n - 1]|)
  }

  /** Strings, a null, one pointer for each argument, and their count. */
  function StackNeeded(args: seq<seq<byte>>): nat {
    StringBytes(args, |args|) + 4 * (|args| + 2)
  }

  lemma StringBytesStep(args: seq<seq<byte>>, i: nat)
    requires i < |args|
    ensures StringBytes(args, i + 1) == StringBytes(args, i) + 4 * Slots(|args[i]|)
  {
  }

  lemma {:induction false} BytesGrow(args: seq<seq<byte>>, i: nat, n: nat)
    requires i <= n <= |args|
    ensures StringBytes(args, i) <= StringBytes(args, n)
    decreases n
  {
    if i < n {
      BytesGrow(args, i, n - 1);
    }
  }

  /** The strings of `args` stand between `low` and `high`, each below the one before. */
  ghost predicate Strings(m: seq<byte>, ptrs: seq<nat>, args: seq<Text>, low: nat, high: nat) {
    && |ptrs| == |args|
    && (forall i :: 0 <= i < |ptrs| ==> low <= ptrs[i] && ptrs[i] + |args[i]| < high && TextAt(m, ptrs[i], args[i]))
    && (forall i, j :: 0 <= i < j < |ptrs| ==> ptrs[j] + |args[j]| < ptrs[i])
  }

  lemma StringsKept(a: seq<byte>, b: seq<byte>, ptrs: seq<nat>, args: seq<Text>, low: nat, high: nat, from: int)
    requires Strings(a, ptrs, args, low, high) && Outside(a, b, from, low)
    ensures Strings(b, ptrs, args, low, high)
  {
  }

  lemma StringsPush(a: seq<byte>, b: seq<byte>, ptrs: seq<nat>, args: seq<Text>, n: nat, low: nat, high: nat, p: nat)
    requires n < |args| && Strings(a, ptrs, args[..n], low, high) && low <= high <= |a|
    requires p + |args[n]| < low && TextAt(b, p, args[n]) && Outside(a, b, p, low)
    ensures Strings(b, ptrs + [p], args[..n + 1], p, high)
  {
    StringsKept(a, b, ptrs, args[..n], low, high, p);
    assert args[..n + 1] == args[..n] + [args[n]];
  }

  /** A copy of the string on whole slots below the stack pointer; no string pushes nothing and is null. */
  method PushStr(mem: array<byte>, sp0: nat, str: Option<Text>) returns (sp: nat, dst: nat)
    requires sp0 <= mem.Length && (str.Some? ==> 4 * Slots(|str.value|) <= sp0)
    modifies mem
    ensures str == None ==> sp == sp0 && dst == 0 && mem[..] == old(mem[..])
    ensures str.Some? ==>
      && sp == dst == sp0 - 4 * Slots(|str.value|)
      && TextAt(mem[..], dst, str.value) && Outside(old(mem[..]), mem[..], dst, sp0)
  {
    if str == None { return sp0, 0; }
    var s := str.value;
    sp := sp0 - 4 * Slots(|s|);
    dst := sp;
    var k := 0;
    while k < |s|
      invariant k <= |s|
      invariant forall i :: 0 <= i < k ==> mem[dst + i] == s[i]
      invariant Outside(old(mem[..]), mem[..], dst, sp0)
    {
      mem[dst + k] := s[k];
      k := k + 1;
    }
    mem[dst + k] := 0;
  }

  /** The pointers stand in consecutive words from `at` on. */
  ghost predicate Vector(m: seq<byte>, at: nat, ptrs: seq<nat>) {
    at + 4 * |ptrs| <= |m| && forall i :: 0 <= i < |ptrs| ==> Entry(m, at, i) == ptrs[i]
  }

  lemma VectorKept(a: seq<byte>, b: seq<byte>, at: nat, ptrs: seq<nat>, from: int)
    requires Vector(a, at, ptrs) && Outside(a, b, from, at)
    ensures Vector(b, at, ptrs)
  {
  }

  lemma VectorPush(a: seq<byte>, b: seq<byte>, at: nat, ptrs: seq<nat>, p: nat)
    requires at >= 4 && Vector(a, at, ptrs) && Outside(a, b, at - 4, at) && WordAt(b, at - 4) == p
    ensures Vector(b, at - 4, [p] + ptrs)
  {
    VectorKept(a, b, at, ptrs, at - 4);
    var q := [p] + ptrs;
    forall i | 0 <= i < |q|
      ensures Entry(b, at - 4, i) == q[i]
    {
      if i > 0 {
        assert Entry(b, at, i - 1) == ptrs[i - 1];
      }
    }
  }

  /** What the start-up code relies on: a count, a null-ended vector of pointers, and behind each its string,
      all apart from each other, below `high`. */
  ghost predicate Layout(m: seq<byte>, sp: nat, args: seq<Text>, ptrs: seq<nat>, high: nat) {
    && sp + 4 * (|args| + 2) <= |m|
    && WordAt(m, sp) == |args|
    && Vector(m, sp + 4, ptrs)
    && WordAt(m, sp + 4 + 4 * |args|) == 0
    && Strings(m, ptrs, args, sp + 4 * (|args| + 2), high)
  }

  lemma NoStrings(m: seq<byte>, args: seq<Text>, sp: nat)
    ensures Strings(m, [], args[..0], sp, sp) && Outside(m, m, sp, sp) && StringBytes(args, 0) == 0
  {
  }

  /** The strings, in order, each below the one before. */
  method PushStrings(mem: array<byte>, sp0: nat, args: seq<Text>) returns (sp: nat, ptrs: seq<nat>)
    requires StringBytes(args, |args|) <= sp0 <= mem.Length
    modifies mem
    ensures sp == sp0 - StringBytes(args, |args|)
    ensures Strings(mem[..], ptrs, args, sp, sp0) && Outside(old(mem[..]), mem[..], sp, sp0)
  {
    hide Strings, TextAt, Outside, StringBytes, Slots;
    sp, ptrs := sp0, [];
    NoStrings(mem[..], args, sp);
    for i := 0 to |args|
      invariant sp == sp0 - StringBytes(args, i)
      invariant Strings(mem[..], ptrs, args[..i], sp, sp0) && Outside(old(mem[..]), mem[..], sp, sp0)
    {
      BytesGrow(args, i + 1, |args|);
      StringBytesStep(args, i);
      ghost var m, sp1 := mem[..], sp;
      var dst;
      sp, dst := PushStr(mem, sp, Some(args[i]));
      StringsPush(m, mem[..], ptrs, args, i, sp1, sp0, sp);
      OutsideThen(old(mem[..]), m, mem[..], sp, sp1, sp0);
      ptrs := ptrs + [dst];
    }
    assert args[..|args|] == args;
  }

  /** The pointers, last to first, so that they stand in order. */
  method PushPointers(mem: array<byte>, sp0: nat, ptrs: seq<nat>) returns (sp: nat)
    requires 4 * |ptrs| <= sp0 <= mem.Length && forall i :: 0 <= i < |ptrs| ==> ptrs[i] < ADDRESSES
    modifies mem
    ensures sp == sp0 - 4 * |ptrs| && Vector(mem[..], sp, ptrs) && Outside(old(mem[..]), mem[..], sp, sp0)
  {
    sp := sp0;
    var i := |ptrs|;
    while i > 0
      invariant 0 <= i <= |ptrs| && sp == sp0 - 4 * (|ptrs| - i)
      invariant Vector(mem[..], sp, ptrs[i..]) && Outside(old(mem[..]), mem[..], sp, sp0)
    {
      i := i - 1;
      ghost var m := mem[..];
      ghost var at := sp;
      sp := Push(mem, sp, ptrs[i]);
      VectorPush(m, mem[..], at, ptrs[i + 1..], ptrs[i]);
      assert ptrs[i..] == [ptrs[i]] + ptrs[i + 1..];
    }
    assert ptrs[0..] == ptrs;
  }

  lemma WordKept(a: seq<byte>, b: seq<byte>, from: int, to: nat, p: nat)
    requires Outside(a, b, from, to) && to <= p && p + 4 <= |a|
    ensures |a| == |b| && WordAt(a, p) == WordAt(b, p)
  {
  }

  /** `push_args` on a downward stack with room for the arguments. */
  method PushArgs(mem: array<byte>, sp0: nat, args: seq<Text>) returns (sp: nat, ghost ptrs: seq<nat>)
    requires StackNeeded(args) <= sp0 <= mem.Length <= ADDRESSES && |args| < ADDRESSES
    modifies mem
    ensures sp == sp0 - StackNeeded(args)
    ensures Layout(mem[..], sp, args, ptrs, sp0) && Outside(old(mem[..]), mem[..], sp, sp0)
  {
    hide Strings, Vector, WordAt, Outside, StringBytes;
    var newArgv;
    sp, newArgv := PushStrings(mem, sp0, args);
    ptrs := newArgv;
    ghost var low, m1 := sp, mem[..];
    sp := Push(mem, sp, 0);
    ghost var at0, m2 := sp, mem[..];
    StringsKept(m1, m2, ptrs, args, low, sp0, at0);
    OutsideThen(old(mem[..]), m1, m2, at0, low, sp0);
    sp := PushPointers(mem, sp, newArgv);
    ghost var at, m3 := sp, mem[..];
    StringsKept(m2, m3, ptrs, args, low, sp0, at);
    OutsideThen(old(mem[..]), m2, m3, at, at0, sp0);
    WordKept(m2, m3, at, at0, at0);
    sp := Push(mem, sp, |args|);
    StringsKept(m3, mem[..], ptrs, args, low, sp0, sp);
    VectorKept(m3, mem[..], at, ptrs, sp);
    OutsideThen(old(mem[..]), m3, mem[..], sp, at, sp0);
    WordKept(m3, mem[..], sp, at, at0);
  }

  // ---------------------------------------------------------------------------------------------
  // The start-up code

  /** `_start` up to the call of `main`: saves a zero frame pointer and finds its arguments above it. */
  method StartUp(mem: array<byte>, esp0: nat) returns (argc: nat, argv: nat)
    requires 4 <= esp0 && esp0 + 4 <= mem.Length
    modifies mem
    ensures argc == WordAt(old(mem[..]), esp0) && argv == esp0 + 4
    ensures Outside(old(mem[..]), mem[..], esp0 - 4, esp0)
  {
    var ebp := Push(mem, esp0, 0);
    argv := ebp + 8;
    argc := WordAt(mem[..], ebp + 4);
    assert WordAt(mem[..], esp0) == WordAt(old(mem[..]), esp0);
  }

  /** What `main` sees in its parameters. */
  ghost predicate Sees(m: seq<byte>, argc: nat, argv: nat, args: seq<seq<byte>>) {
    && argc == |args|
    && argv + 4 * (argc + 1) <= |m|
    && WordAt(m, argv + 4 * argc) == 0
    && (forall i :: 0 <= i < argc ==>
          && Entry(m, argv, i) + |args[i]| < |m| && StringAt(m, Entry(m, argv, i)) == args[i]
          && m[Entry(m, argv, i) + |args[i]|] == 0)
    && (forall i, j :: 0 <= i < j < argc ==> Entry(m, argv, j) + |args[j]| < Entry(m, argv, i))
    && (forall i :: 0 <= i < argc ==> argv + 4 * (argc + 1) <= Entry(m, argv, i))
  }

  lemma LayoutSeen(m: seq<byte>, sp: nat, args: seq<Text>, ptrs: seq<nat>, high: nat)
    requires Layout(m, sp, args, ptrs, high)
    ensures Sees(m, |args|, sp + 4, args)
  {
    forall i | 0 <= i < |args|
      ensures Entry(m, sp + 4, i) == ptrs[i] && StringAt(m, ptrs[i]) == args[i]
    {
      TextIsString(m, ptrs[i], args[i]);
    }
  }

  lemma LayoutKept(a: seq<byte>, b: seq<byte>, sp: nat, args: seq<Text>, ptrs: seq<nat>, high: nat, from: int)
    requires Layout(a, sp, args, ptrs, high) && Outside(a, b, from, sp)
    ensures Layout(b, sp, args, ptrs, high)
  {
    VectorKept(a, b, sp + 4, ptrs, from);
    hide WordAt;
    assert WordAt(b, sp) == WordAt(a, sp) && WordAt(b, sp + 4 + 4 * |args|) == WordAt(a, sp + 4 + 4 * |args|) by {
      SameWord(a, b, sp);
      SameWord(a, b, sp + 4 + 4 * |args|);
    }
  }

  lemma SameWord(a: seq<byte>, b: seq<byte>, p: nat)
    requires |a| == |b| && p + 4 <= |a| && forall i :: p <= i < p + 4 ==> a[i] == b[i]
    ensures WordAt(a, p) == WordAt(b, p)
  {
  }

  /** The kernel's layout followed by the start-up code. */
  method StartProcess(mem: array<byte>, sp0: nat, args: seq<Text>) returns (argc: nat, argv: nat)
    requires StackNeeded(args) + 4 <= sp0 <= mem.Length <= ADDRESSES && |args| < ADDRESSES
    modifies mem
    ensures Sees(mem[..], argc, argv, args)
    ensures Outside(old(mem[..]), mem[..], sp0 - StackNeeded(args) - 4, sp0)
  {
    hide Sees, WordAt, Strings, Vector, StringBytes, Outside;
    var sp;
    ghost var ptrs;
    ghost var m0 := mem[..];
    sp, ptrs := PushArgs(mem, sp0, args);
    ghost var m := mem[..];
    argc, argv := StartUp(mem, sp);
    OutsideThen(m0, m, mem[..], sp - 4, sp, sp0);
    LayoutKept(m, mem[..], sp, args, ptrs, sp0, sp - 4);
    LayoutSeen(mem[..], sp, args, ptrs, sp0);
  }

  /** The argument strings behind the pointers of a broken line. */
  method ReadArgv(cmdline: array<byte>, argv: array<int>, argc: nat, ghost line: Text) returns (args: seq<Text>)
    requires Broken(line, cmdline[..], argv[..]) && argc == |Words(line)|
    ensures args == Words(line)
  {
    hide Words, StringAt;
    args := [];
    for i := 0 to argc
      invariant |args| == i && forall j :: 0 <= j < i ==> args[j] == Words(line)[j]
    {
      assert argv[i] == argv[..][i];
      args := args + [StringAt(cmdline[..], argv[i])];
    }
  }

  /** From the line typed at the shell to the parameters of `main`: the words of the line, if they fit. */
  method Launch(cmdline: array<byte>, argv: array<int>, mem: array<byte>, sp0: nat, ghost line: Text)
    returns (res: int, mainArgc: nat, mainArgv: nat)
    requires |line| < cmdline.Length && cmdline[|line|] == 0 && cmdline != mem
    requires forall i :: 0 <= i < |line| ==> cmdline[i] == line[i]
    requires 1 <= argv.Length < ADDRESSES
    requires StackNeeded(Words(line)) + 4 <= sp0 <= mem.Length <= ADDRESSES
    modifies cmdline, argv, mem
    ensures if |Words(line)| < argv.Length then res == |Words(line)| else res == -10
    ensures res >= 0 ==> Sees(mem[..], mainArgc, mainArgv, Words(line))
    ensures Outside(old(mem[..]), mem[..], sp0 - StackNeeded(Words(line)) - 4, sp0)
  {
    mainArgc, mainArgv := 0, 0;
    ghost var m0 := mem[..];
    assert Outside(m0, m0, sp0 - StackNeeded(Words(line)) - 4, sp0);
    hide Words, Broken, Sees, Outside, StackNeeded;
    res := BreakCmdline(cmdline, argv, line);
    assert mem[..] == m0;
    if res >= 0 {
      var args := ReadArgv(cmdline, argv, res, line);
      mainArgc, mainArgv := StartProcess(mem, sp0, args);
    }
  }
}
