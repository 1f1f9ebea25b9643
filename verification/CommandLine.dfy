/** Breaking a command line into words, in place. */
module CommandLine {
  import opened ByteTypes
  import opened Common

  const E2BIG: int := 10
  const NULL: int := -1

  predicate IsSpace(c: byte) {
    c == 0x20 || 0x09 <= c <= 0x0d
  }

  predicate IsGraph(c: byte) {
    0x21 <= c <= 0x7e
  }

  // ---------------------------------------------------------------------------------------------
  // What the words are

  /** Where the run without whitespace at `k` ends. */
  function RunEnd(s: seq<byte>, k: nat): (e: nat)
    requires k <= |s|
    ensures k <= e <= |s| && (e < |s| ==> IsSpace(s[e]))
    ensures forall i :: k <= i < e ==> !IsSpace(s[i])
    decreases |s| - k
  {
    if k == |s| || IsSpace(s[k]) then k else RunEnd(s, k + 1)
  }

  /** The first printing character from `k` on, before `e`. */
  function FirstGraph(s: seq<byte>, k: nat, e: nat): (g: nat)
    requires k <= e <= |s|
    ensures k <= g <= e && (g < e ==> IsGraph(s[g]))
    ensures forall i :: k <= i < g ==> !IsGraph(s[i])
    decreases e - k
  {
    if k == e || IsGraph(s[k]) then k else FirstGraph(s, k + 1, e)
  }

  /** The word in the run from `k` to `e`, if it has one. */
  function WordIn(s: seq<byte>, k: nat, e: nat): seq<seq<byte>>
    requires k <= e <= |s|
  {
    var g := FirstGraph(s, k, e);
    if g == e then [] else [s[g..e]]
  }

  /** The runs between whitespace from `k` on, each from its first printing character; runs without one are
      no words. */
  function WordsFrom(s: seq<byte>, k: nat): seq<seq<byte>>
    requires k <= |s|
    decreases |s| - k
  {
    if k == |s| then []
    else if IsSpace(s[k]) then WordsFrom(s, k + 1)
    else WordIn(s, k, RunEnd(s, k)) + WordsFrom(s, RunEnd(s, k))
  }

  function Words(s: seq<byte>): seq<seq<byte>> {
    WordsFrom(s, 0)
  }

  /** The terminated string that starts at `p`. */
  function StringAt(m: seq<byte>, p: nat): (t: Text)
    requires p <= |m|
    decreases |m| - p
  {
    if p == |m| || m[p] == 0 then [] else [m[p]] + StringAt(m, p + 1)
  }

  // ---------------------------------------------------------------------------------------------
  // The scan finds them

  /** Where the scan sees words start from position `k` on. */
  function Starts(s: seq<byte>, k: nat, inword: bool): (r: seq<nat>)
    requires k <= |s|
    ensures forall i :: 0 <= i < |r| ==> k <= r[i] < |s|
    decreases |s| - k
  {
    if k == |s| then []
    else if IsSpace(s[k]) then Starts(s, k + 1, false)
    else if IsGraph(s[k]) && !inword then [k] + Starts(s, k + 1, true)
    else Starts(s, k + 1, inword)
  }

  /** The line with its whitespace turned into terminators, and the line's own terminator. */
  function Blanked(s: seq<byte>): (r: seq<byte>)
    ensures |r| == |s| + 1 && r[|s|] == 0
    ensures forall i :: 0 <= i < |s| ==> r[i] == if IsSpace(s[i]) then 0 else s[i]
  {
    if s == [] then [0] else [if IsSpace(s[0]) then 0 else s[0]] + Blanked(s[1..])
  }

  /** The strings at a list of positions. */
  function StringsAt(m: seq<byte>, ps: seq<nat>): (r: seq<seq<byte>>)
    requires forall i :: 0 <= i < |ps| ==> ps[i] <= |m|
    ensures |r| == |ps| && forall i :: 0 <= i < |ps| ==> r[i] == StringAt(m, ps[i])
  {
    if ps == [] then [] else [StringAt(m, ps[0])] + StringsAt(m, ps[1..])
  }

  /** A string in the blanked line ends where its run does. */
  lemma {:induction false} RunIsString(s: Text, k: nat)
    requires k <= |s|
    ensures StringAt(Blanked(s), k) == s[k..RunEnd(s, k)]
    decreases |s| - k
  {
    if k < |s| && !IsSpace(s[k]) {
      RunIsString(s, k + 1);
      assert s[k..RunEnd(s, k)] == [s[k]] + s[k + 1..RunEnd(s, k)];
    }
  }

  /** How the words from a position inside a run follow from those one further on. */
  lemma NextInRun(s: Text, k: nat)
    requires k < |s| && !IsSpace(s[k])
    ensures RunEnd(s, k + 1) == RunEnd(s, k)
    ensures WordsFrom(s, k) ==
      if IsGraph(s[k]) then [s[k..RunEnd(s, k)]] + WordsFrom(s, RunEnd(s, k)) else WordsFrom(s, k + 1)
  {
    var e := RunEnd(s, k);
    assert [] + WordsFrom(s, e) == WordsFrom(s, e);
  }

  /** Whether a word starts with this character. */
  predicate StartsHere(ch: byte, inword: bool) {
    !IsSpace(ch) && IsGraph(ch) && !inword
  }

  lemma StartsStep(s: seq<byte>, k: nat, inword: bool)
    requires k <= |s|
    ensures Starts(s, k, inword) ==
      if k == |s| then []
      else if IsSpace(s[k]) then Starts(s, k + 1, false)
      else if StartsHere(s[k], inword) then [k] + Starts(s, k + 1, true)
      else Starts(s, k + 1, IsGraph(s[k]) || inword)
  {
  }

  /** One run of the line, and the rest. */
  lemma WordsStep(s: seq<byte>, k: nat)
    requires k < |s|
    ensures IsSpace(s[k]) ==> WordsFrom(s, k) == WordsFrom(s, k + 1)
    ensures var e := RunEnd(s, k);
      !IsSpace(s[k]) ==> k < e && WordsFrom(s, k) == WordIn(s, k, e) + WordsFrom(s, e)
  {
  }

  lemma {:induction false} StartsAreWords(s: Text, k: nat, inword: bool)
    requires k <= |s|
    ensures StringsAt(Blanked(s), Starts(s, k, inword)) == WordsFrom(s, if inword then RunEnd(s, k) else k)
    decreases |s| - k
  {
    StartsStep(s, k, inword);
    if k < |s| {
      WordsStep(s, k);
      var next := IsGraph(s[k]) || inword;
      if IsSpace(s[k]) {
        hide Starts, Blanked, WordsFrom, FirstGraph;
        StartsAreWords(s, k + 1, false);
      } else {
        NextInRun(s, k);
        RunIsString(s, k);
        hide Starts, Blanked, StringAt, RunEnd, FirstGraph, WordsFrom;
        StartsAreWords(s, k + 1, next);
        assert ([k] + Starts(s, k + 1, next))[1..] == Starts(s, k + 1, next);
      }
    }
  }

  // ---------------------------------------------------------------------------------------------
  // Splitting undoes joining

  predicate IsWord(w: seq<byte>) {
    w != [] && forall i :: 0 <= i < |w| ==> IsGraph(w[i])
  }

  /** Words with the separators `seps` behind them. */
  function Join(ws: seq<seq<byte>>, seps: seq<seq<byte>>): seq<byte>
    requires |seps| == |ws|
  {
    if ws == [] then [] else ws[0] + seps[0] + Join(ws[1..], seps[1..])
  }

  /** `b` is what `s` holds from position `at` on. */
  ghost predicate Tail(s: seq<byte>, at: nat, b: seq<byte>) {
    |s| == at + |b| && forall i :: 0 <= i < |b| ==> s[at + i] == b[i]
  }

  lemma {:induction false} RunShift(s: seq<byte>, at: nat, b: seq<byte>, k: nat)
    requires Tail(s, at, b) && k <= |b|
    ensures RunEnd(s, at + k) == at + RunEnd(b, k)
    decreases |b| - k
  {
    if k < |b| {
      RunShift(s, at, b, k + 1);
    }
  }

  lemma {:induction false} GraphShift(s: seq<byte>, at: nat, b: seq<byte>, k: nat, e: nat)
    requires Tail(s, at, b) && k <= e <= |b|
    ensures FirstGraph(s, at + k, at + e) == at + FirstGraph(b, k, e)
    decreases e - k
  {
    if k < e {
      GraphShift(s, at, b, k + 1, e);
    }
  }

  lemma WordShift(s: seq<byte>, at: nat, b: seq<byte>, k: nat, e: nat)
    requires Tail(s, at, b) && k <= e <= |b|
    ensures WordIn(s, at + k, at + e) == WordIn(b, k, e)
  {
    GraphShift(s, at, b, k, e);
    var g := FirstGraph(b, k, e);
    var x, y := s[at + g..at + e], b[g..e];
    forall i | 0 <= i < |y|
      ensures x[i] == y[i]
    {
      assert s[at + (g + i)] == b[g + i];
    }
    assert x == y;
  }

  lemma {:induction false} WordsShift(s: seq<byte>, at: nat, b: seq<byte>, k: nat)
    requires Tail(s, at, b) && k <= |b|
    ensures WordsFrom(s, at + k) == WordsFrom(b, k)
    decreases |b| - k
  {
    hide *;
    TailAt(s, at, b, k);
    if k == |b| {
      NoWordsAtEnd(s);
      NoWordsAtEnd(b);
    } else {
      WordsStep(s, at + k);
      WordsStep(b, k);
      if IsSpace(b[k]) {
        WordsShift(s, at, b, k + 1);
        assert at + (k + 1) == (at + k) + 1;
      } else {
        var e := RunEnd(b, k);
        RunShift(s, at, b, k);
        WordShift(s, at, b, k, e);
        WordsShift(s, at, b, e);
      }
    }
  }

  lemma TailAt(s: seq<byte>, at: nat, b: seq<byte>, k: nat)
    requires Tail(s, at, b) && k <= |b|
    ensures |s| == at + |b| && (k < |b| ==> s[at + k] == b[k])
  {
  }

  lemma NoWordsAtEnd(s: seq<byte>)
    ensures WordsFrom(s, |s|) == []
  {
  }

  lemma {:induction false} SpacesSkipped(s: seq<byte>, k: nat, e: nat)
    requires k <= e <= |s| && forall i :: k <= i < e ==> IsSpace(s[i])
    ensures WordsFrom(s, k) == WordsFrom(s, e)
    decreases e - k
  {
    if k < e {
      SpacesSkipped(s, k + 1, e);
    }
  }

  predicate Spaces(s: seq<byte>) {
    forall i :: 0 <= i < |s| ==> IsSpace(s[i])
  }

  /** Words separated by whitespace are found again, whatever the whitespace; there may be some ahead of the first
      word, and there need be none behind the last. */
  lemma SplitJoin(lead: seq<byte>, ws: seq<seq<byte>>, seps: seq<seq<byte>>)
    requires |seps| == |ws| && Spaces(lead)
    requires forall i :: 0 <= i < |ws| ==> IsWord(ws[i]) && Spaces(seps[i]) && (i < |ws| - 1 ==> seps[i] != [])
    ensures Words(lead + Join(ws, seps)) == ws
  {
    var rest := Join(ws, seps);
    var s := lead + rest;
    assert forall i :: 0 <= i < |lead| ==> s[i] == lead[i];
    SpacesSkipped(s, 0, |lead|);
    WordsShift(s, |lead|, rest, 0);
    SplitWords(ws, seps);
  }

  lemma {:induction false} SplitWords(ws: seq<seq<byte>>, seps: seq<seq<byte>>)
    requires |seps| == |ws|
    requires forall i :: 0 <= i < |ws| ==> IsWord(ws[i]) && Spaces(seps[i]) && (i < |ws| - 1 ==> seps[i] != [])
    ensures Words(Join(ws, seps)) == ws
  {
    if ws != [] {
      hide IsWord, Spaces, Words;
      SplitWords(ws[1..], seps[1..]);
      var rest := Join(ws[1..], seps[1..]);
      assert |ws| == 1 ==> rest == [];
      SplitFirst(ws[0], seps[0], rest);
      assert ws == [ws[0]] + ws[1..];
    }
  }

  lemma SplitFirst(w: seq<byte>, sep: seq<byte>, rest: seq<byte>)
    requires IsWord(w) && Spaces(sep) && (sep == [] ==> rest == [])
    ensures Words(w + sep + rest) == [w] + Words(rest)
  {
    var s, at := w + sep + rest, |w| + |sep|;
    assert Tail(s, at, rest);
    assert s[..|w|] == w;
    assert forall i :: |w| <= i < at ==> s[i] == sep[i - |w|];
    SplitAt(s, w, at, rest);
  }

  lemma SplitAt(s: seq<byte>, w: seq<byte>, at: nat, rest: seq<byte>)
    requires IsWord(w) && |w| <= at <= |s| && s[..|w|] == w && Tail(s, at, rest)
    requires (forall i :: |w| <= i < at ==> IsSpace(s[i])) && (at == |w| ==> at == |s|)
    ensures Words(s) == [w] + Words(rest)
  {
    hide WordsFrom, Tail, IsWord, IsSpace;
    FirstWord(s, w, at);
    WordsShift(s, at, rest, 0);
  }

  lemma FirstWord(s: seq<byte>, w: seq<byte>, at: nat)
    requires IsWord(w) && |w| <= at <= |s| && s[..|w|] == w
    requires (forall i :: |w| <= i < at ==> IsSpace(s[i])) && (at == |w| ==> at == |s|)
    ensures WordsFrom(s, 0) == [w] + WordsFrom(s, at)
  {
    assert forall i :: 0 <= i < |w| ==> s[i] == w[i];
    RunEndsAt(s, 0, |w|);
    SpacesSkipped(s, |w|, at);
    assert s[0..|w|] == w;
  }

  lemma {:induction false} RunEndsAt(s: seq<byte>, k: nat, e: nat)
    requires k <= e <= |s| && (forall i :: k <= i < e ==> IsGraph(s[i])) && (e < |s| ==> IsSpace(s[e]))
    ensures RunEnd(s, k) == e
    decreases e - k
  {
    if k < e {
      RunEndsAt(s, k + 1, e);
    }
  }

  // ---------------------------------------------------------------------------------------------
  // The shell's code

  /** The line broken into the words its `argv` points at, ended by a null. */
  ghost predicate Broken(line: Text, c: seq<byte>, argv: seq<int>) {
    var n := |Words(line)|;
    && |c| > |line| && c[..|line| + 1] == Blanked(line)
    && |argv| > n && argv[n] == NULL
    && forall i :: 0 <= i < n ==> 0 <= argv[i] <= |line| && StringAt(c, argv[i]) == Words(line)[i]
  }

  /** Strings end at the line's terminator, so what follows it does not matter. */
  lemma {:induction false} StringInPrefix(m: seq<byte>, n: nat, p: nat)
    requires p <= n < |m| && m[n] == 0
    ensures StringAt(m, p) == StringAt(m[..n + 1], p)
    decreases n - p
  {
    if m[p] != 0 {
      StringInPrefix(m, n, p + 1);
    }
  }

  lemma BrokenByStarts(line: Text, c: seq<byte>, argv: seq<int>)
    requires |c| > |line| && forall i :: 0 <= i <= |line| ==> c[i] == Blanked(line)[i]
    requires var starts := Starts(line, 0, false);
      |argv| > |starts| && argv[|starts|] == NULL && forall i :: 0 <= i < |starts| ==> argv[i] == starts[i]
    ensures Broken(line, c, argv)
  {
    var starts := Starts(line, 0, false);
    StartsAreWords(line, 0, false);
    assert Words(line) == StringsAt(Blanked(line), starts);
    assert c[..|line| + 1] == Blanked(line);
    forall i | 0 <= i < |starts|
      ensures StringAt(c, argv[i]) == Words(line)[i]
    {
      StringInPrefix(c, |line|, starts[i]);
    }
  }

  /** `sh_break_cmdline` on a terminated line: fills `argv` with the positions of the words, or fails
      when they do not fit beside the closing null. */
  method BreakCmdline(cmdline: array<byte>, argv: array<int>, ghost line: Text) returns (res: int)
    requires |line| < cmdline.Length && cmdline[|line|] == 0
    requires forall i :: 0 <= i < |line| ==> cmdline[i] == line[i]
    requires argv.Length >= 1
    modifies cmdline, argv
    ensures res == if |Words(line)| < argv.Length then |Words(line)| else -10
    ensures forall i :: |line| < i < cmdline.Length ==> cmdline[i] == old(cmdline[i])
    ensures res >= 0 ==>
      && Broken(line, cmdline[..], argv[..])
      && forall i :: res < i < argv.Length ==> argv[i] == old(argv[i])
  {
    StartsAreWords(line, 0, false);
    assert |Words(line)| == |Starts(line, 0, false)|;
    hide Blanked, Starts, Words, Broken;
    var ok, argc := ScanLine(cmdline, argv, line);
    if !ok { return -E2BIG; }
    argv[argc] := NULL;
    BrokenByStarts(line, cmdline[..], argv[..]);
    return argc;
  }

  /** The loop over the characters of the line. */
  method ScanLine(cmdline: array<byte>, argv: array<int>, ghost line: Text) returns (ok: bool, argc: nat)
    requires |line| < cmdline.Length && cmdline[|line|] == 0
    requires forall i :: 0 <= i < |line| ==> cmdline[i] == line[i]
    requires argv.Length >= 1
    modifies cmdline, argv
    ensures ok == (|Starts(line, 0, false)| < argv.Length)
    ensures forall i :: |line| < i < cmdline.Length ==> cmdline[i] == old(cmdline[i])
    ensures ok ==>
      && argc == |Starts(line, 0, false)|
      && (forall i :: 0 <= i <= |line| ==> cmdline[i] == Blanked(line)[i])
      && (forall i :: 0 <= i < argc ==> argv[i] == Starts(line, 0, false)[i])
      && (forall i :: argc <= i < argv.Length ==> argv[i] == old(argv[i]))
  {
    hide Blanked, Starts, IsSpace, IsGraph;
    ghost var blanked, starts := Blanked(line), Starts(line, 0, false);
    ghost var done: seq<nat> := [];
    var inword, k: nat := false, 0;
    ok, argc := true, 0;
    while cmdline[k] != 0
      invariant k <= |line| && |done| == argc < argv.Length && ok
      invariant forall i :: 0 <= i < k ==> cmdline[i] == blanked[i]
      invariant forall i :: k <= i < cmdline.Length ==> cmdline[i] == old(cmdline[i])
      invariant starts == done + Starts(line, k, inword)
      invariant forall i :: 0 <= i < argc ==> argv[i] == done[i]
      invariant forall i :: argc <= i < argv.Length ==> argv[i] == old(argv[i])
      decreases |line| - k
    {
      assert cmdline[k] == line[k];
      StartsStep(line, k, inword);
      ghost var found := StartsHere(line[k], inword);
      Regroup(done, [k], Starts(line, k + 1, true));
      ok, argc, inword := ScanChar(cmdline, k, argv, argc, inword);
      if !ok { return; }
      if found { done := done + [k]; }
      k := k + 1;
    }
    StartsStep(line, k, inword);
    assert starts == done;
  }

  /** One turn of the loop: the character at `k`. */
  method ScanChar(cmdline: array<byte>, k: nat, argv: array<int>, argc0: nat, inword0: bool)
    returns (ok: bool, argc: nat, inword: bool)
    requires k < cmdline.Length && argc0 < argv.Length
    modifies cmdline, argv
    ensures var ch := old(cmdline[k]);
      && ok == (StartsHere(ch, inword0) ==> argc0 < argv.Length - 1)
      && cmdline[..] == old(cmdline[..])[k := if IsSpace(ch) then 0 else ch]
      && inword == (if IsSpace(ch) || !ok then false else IsGraph(ch) || inword0)
      && (if ok && StartsHere(ch, inword0) then argc == argc0 + 1 && argv[..] == old(argv[..])[argc0 := k]
          else argc == argc0 && argv[..] == old(argv[..]))
  {
    ok, argc, inword := true, argc0, inword0;
    var ch := cmdline[k];
    if IsSpace(ch) {
      cmdline[k] := 0;
      inword := false;
    }
    if IsGraph(ch) {
      if !inword {
        if argc < argv.Length - 1 {
          argv[argc] := k;
          argc := argc + 1;
        } else {
          return false, argc, inword;
        }
      }
      inword := true;
    }
  }
}
