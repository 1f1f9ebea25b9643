/** The command line in bytes: from what is typed at the shell to what main finds in memory, with every byte written as
    its number. */
module CommandBytes {
  import opened ByteTypes
  import opened Common
  import opened CommandLine
  import opened ProcessStack

  /** Words of the bytes 33 to 126 are found again when runs of the bytes 9 to 13 and 32 stand between them, ahead of
      the first and behind the last. */
  lemma SplitBytes(lead: seq<byte>, ws: seq<seq<byte>>, seps: seq<seq<byte>>)
    requires |seps| == |ws|
    requires forall j :: 0 <= j < |lead| ==> lead[j] in {9, 10, 11, 12, 13, 32}
    requires forall i :: 0 <= i < |ws| ==> ws[i] != [] && forall j :: 0 <= j < |ws[i]| ==> 33 <= ws[i][j] <= 126
    requires forall i :: 0 <= i < |seps| ==>
      && (i < |seps| - 1 ==> seps[i] != [])
      && forall j :: 0 <= j < |seps[i]| ==> seps[i][j] in {9, 10, 11, 12, 13, 32}
    ensures Words(lead + Join(ws, seps)) == ws
  {
    SplitJoin(lead, ws, seps);
  }

  /** Every line of such bytes is of this form. */
  lemma {:induction false} LineParts(line: seq<byte>)
    returns (lead: seq<byte>, ws: seq<seq<byte>>, seps: seq<seq<byte>>)
    requires forall i :: 0 <= i < |line| ==> line[i] in {9, 10, 11, 12, 13, 32} || 33 <= line[i] <= 126
    ensures |seps| == |ws| && line == lead + Join(ws, seps)
    ensures forall j :: 0 <= j < |lead| ==> lead[j] in {9, 10, 11, 12, 13, 32}
    ensures forall i :: 0 <= i < |ws| ==> ws[i] != [] && forall j :: 0 <= j < |ws[i]| ==> 33 <= ws[i][j] <= 126
    ensures forall i :: 0 <= i < |seps| ==>
      && (i < |seps| - 1 ==> seps[i] != [])
      && forall j :: 0 <= j < |seps[i]| ==> seps[i][j] in {9, 10, 11, 12, 13, 32}
  {
    if line == [] {
      lead, ws, seps := [], [], [];
    } else {
      var c := line[0];
      lead, ws, seps := LineParts(line[1..]);
      assert line == [c] + line[1..];
      if c in {9, 10, 11, 12, 13, 32} {
        Regroup([c], lead, Join(ws, seps));
        lead := [c] + lead;
      } else if lead == [] && ws != [] {
        Regroup([c], ws[0], seps[0]);
        Regroup([c], ws[0] + seps[0], Join(ws[1..], seps[1..]));
        ws := [[c] + ws[0]] + ws[1..];
      } else {
        Regroup([c], lead, Join(ws, seps));
        ws, seps, lead := [[c]] + ws, [lead] + seps, [];
      }
    }
  }

  /** The `i`-th of the little-endian addresses from `at` on. */
  function Pointer(m: seq<byte>, at: nat, i: nat): int
    requires at + 4 * i + 4 <= |m|
  {
    var a := at + 4 * i;
    var b0: int, b1: int, b2: int, b3: int := m[a], m[a + 1], m[a + 2], m[a + 3];
    b0 + 256 * b1 + 65536 * b2 + 16777216 * b3
  }

  /** What main finds: the count, and from `argv` on the addresses of the words, which stand there with a null behind
      them, apart from each other and from the vector, and then a null address. */
  ghost predicate FindsWords(m: seq<byte>, argc: nat, argv: nat, ws: seq<seq<byte>>) {
    && argc == |ws| && argv + 4 * argc + 4 <= |m|
    && (forall i :: 0 <= i < argc ==>
          && argv + 4 * argc + 4 <= Pointer(m, argv, i) && Pointer(m, argv, i) + |ws[i]| < |m|
          && m[Pointer(m, argv, i)..Pointer(m, argv, i) + |ws[i]|] == ws[i]
          && m[Pointer(m, argv, i) + |ws[i]|] == 0)
    && (forall i, j :: 0 <= i < j < argc ==> Pointer(m, argv, j) + |ws[j]| < Pointer(m, argv, i))
    && Pointer(m, argv, argc) == 0
  }

  lemma {:induction false} StringIs(m: seq<byte>, p: nat, t: seq<byte>)
    requires p + |t| <= |m| && StringAt(m, p) == t
    ensures m[p..p + |t|] == t
    decreases |t|
  {
    if t != [] {
      assert p < |m| && t == [m[p]] + StringAt(m, p + 1);
      StringIs(m, p + 1, t[1..]);
      assert m[p..p + |t|] == [m[p]] + m[p + 1..p + |t|];
    }
  }

  lemma PointerIs(m: seq<byte>, at: nat, i: nat)
    requires at + 4 * i + 4 <= |m|
    ensures Pointer(m, at, i) == Entry(m, at, i) == WordAt(m, at + 4 * i)
  {
  }

  lemma SeesFinds(m: seq<byte>, argc: nat, argv: nat, ws: seq<seq<byte>>)
    requires Sees(m, argc, argv, ws)
    ensures FindsWords(m, argc, argv, ws)
  {
    hide WordAt, Entry, Pointer, StringAt;
    PointerIs(m, argv, argc);
    forall i: nat | i < argc
      ensures Pointer(m, argv, i) == Entry(m, argv, i)
      ensures m[Entry(m, argv, i)..Entry(m, argv, i) + |ws[i]|] == ws[i]
    {
      PointerIs(m, argv, i);
      StringIs(m, Entry(m, argv, i), ws[i]);
    }
  }

  /** A line typed at the shell: main finds its words, or the shell answers -10 when they do not fit beside the closing
      null of its vector. */
  method LaunchTyped(cmdline: array<byte>, argv: array<int>, mem: array<byte>, sp0: nat,
                     ghost lead: seq<byte>, ghost ws: seq<seq<byte>>, ghost seps: seq<seq<byte>>)
    returns (res: int, mainArgc: nat, mainArgv: nat)
    requires |seps| == |ws|
    requires forall j :: 0 <= j < |lead| ==> lead[j] in {9, 10, 11, 12, 13, 32}
    requires forall i :: 0 <= i < |ws| ==> ws[i] != [] && forall j :: 0 <= j < |ws[i]| ==> 33 <= ws[i][j] <= 126
    requires forall i :: 0 <= i < |seps| ==>
      && (i < |seps| - 1 ==> seps[i] != [])
      && forall j :: 0 <= j < |seps[i]| ==> seps[i][j] in {9, 10, 11, 12, 13, 32}
    requires var line := lead + Join(ws, seps);
      && |line| < cmdline.Length && cmdline[|line|] == 0 && forall i :: 0 <= i < |line| ==> cmdline[i] == line[i] != 0
    requires cmdline != mem && 1 <= argv.Length < ADDRESSES && StackNeeded(ws) + 4 <= sp0 <= mem.Length <= ADDRESSES
    modifies cmdline, argv, mem
    ensures if |ws| < argv.Length then res == |ws| && FindsWords(mem[..], mainArgc, mainArgv, ws) else res == -10
  {
    ghost var line := lead + Join(ws, seps);
    SplitBytes(lead, ws, seps);
    hide Words, Sees, StackNeeded, Outside, Join;
    res, mainArgc, mainArgv := Launch(cmdline, argv, mem, sp0, line);
    if res >= 0 { SeesFinds(mem[..], mainArgc, mainArgv, ws); }
  }
}
