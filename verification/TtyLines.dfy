/** The terminal in bytes: what a reader gets of typed lines, with every special byte written as its number. */
module TtyLines {
  import opened ByteTypes
  import opened Common
  import opened Tty
  import opened TtyDriver

  /** What `e` holds is `s` as it was typed, in lines that end with byte 10. */
  ghost predicate AsTyped(e: Edit, s: seq<byte>) {
    && e.stream + Bytes(e.line) == Bytes(s)
    && 10 !in e.line && |e.line| <= |s| && (|e.line| < |s| ==> s[|s| - |e.line| - 1] == 10)
  }

  /** Input without end-of-input and editing bytes stays as typed. */
  lemma {:induction false} UneditedInput(s: seq<byte>)
    requires forall i :: 0 <= i < |s| ==> s[i] != 4 && s[i] != 8 && s[i] != 0x7f && s[i] != 0x15
    ensures AsTyped(Fold(true, s), s)
  {
    if s == [] {
      assert Bytes([]) == [];
    } else {
      hide Fold, AsTyped, Key;
      var init, ch := s[..|s| - 1], s[|s| - 1];
      UneditedInput(init);
      assert s == init + [ch];
      FoldSnoc(init, ch);
      UneditedKey(Fold(true, init), ch, init);
    }
  }

  lemma UneditedKey(e: Edit, ch: byte, s: seq<byte>)
    requires ch != 4 && ch != 8 && ch != 0x7f && ch != 0x15 && AsTyped(e, s)
    ensures AsTyped(Key(e, ch), s + [ch])
  {
    hide Bytes;
    BytesAppend(s, [ch]);
    BytesAppend(e.line, [ch]);
    Regroup(e.stream, Bytes(e.line), Bytes([ch]));
    if ch == 10 {
      assert Bytes([]) == [];
      assert e.stream + Bytes(e.line + [ch]) + [] == e.stream + Bytes(e.line + [ch]);
    }
  }

  /** Ordinary characters are what the line holds. */
  lemma {:induction false} PlainTyped(s: seq<byte>)
    requires forall i :: 0 <= i < |s| ==> s[i] != 10 && s[i] != 4 && s[i] != 8 && s[i] != 0x7f && s[i] != 0x15
    ensures Fold(true, s) == Edit([], s)
  {
    if s != [] {
      PlainTyped(s[..|s| - 1]);
    }
  }

  lemma {:induction false} TypedPlain(buf: seq<byte>, s: seq<byte>)
    requires forall i :: 0 <= i < |s| ==> s[i] != 10 && s[i] != 4 && s[i] != 8 && s[i] != 0x7f && s[i] != 0x15
    requires |buf| + |s| < 256
    ensures Typed(buf, s) == buf + s && Fits(buf, s)
    decreases |s|
  {
    if s != [] {
      TypedPlain(buf + [s[0]], s[1..]);
      assert buf + [s[0]] + s[1..] == buf + s;
    }
  }

  /** The line `buf` without its last `n` characters, as far as it has them. */
  function Without(buf: seq<byte>, n: nat): seq<byte> {
    if n <= |buf| then buf[..|buf| - n] else []
  }

  lemma {:induction false} TypedErases(buf: seq<byte>, erases: seq<byte>)
    requires |buf| < 256 && forall i :: 0 <= i < |erases| ==> erases[i] == 8 || erases[i] == 0x7f
    ensures Typed(buf, erases) == Without(buf, |erases|) && Fits(buf, erases)
    decreases |erases|
  {
    if erases != [] {
      TypedErases(Without(buf, 1), erases[1..]);
    }
  }

  lemma {:induction false} TypedConcat(buf: seq<byte>, a: seq<byte>, b: seq<byte>)
    ensures Typed(buf, a + b) == Typed(Typed(buf, a), b)
    ensures Fits(buf, a) && Fits(Typed(buf, a), b) ==> Fits(buf, a + b)
    decreases |a|
  {
    if a == [] {
      assert a + b == b;
    } else {
      assert (a + b)[0] == a[0] && (a + b)[1..] == a[1..] + b;
      TypedConcat(Key(Edit([], buf), a[0]).line, a[1..], b);
    }
  }

  /** What a fresh device in cooked mode gives to a read of any size when a typed line ends in byte 10. */
  lemma LineRead(typed: seq<byte>, line: seq<byte>, rest: seq<byte>, count: nat, after: int)
    requires (forall i :: 0 <= i < |typed| ==> typed[i] != 10 && typed[i] != 4) && Typed([], typed) == line
    requires Fits([], typed)
    ensures var all := line + [10];
      var n := Min(count, |all|);
      Read(Line(true, [], false, false), typed + [10] + rest, count, after)
      == Outcome(n, all[..n], false, Line(true, all[n..], n < |all|, false), rest)
  {
    FillLine([], typed, 10, rest, -EAGAIN, after);
    hide Fill, Typed, Fits;
    TakeFinished(line + [10], rest, count);
  }

  /** The same when it ends in byte 4. */
  lemma EndedRead(typed: seq<byte>, line: seq<byte>, rest: seq<byte>, count: nat, after: int)
    requires (forall i :: 0 <= i < |typed| ==> typed[i] != 10 && typed[i] != 4) && Typed([], typed) == line
    requires Fits([], typed)
    ensures var n := Min(count, |line|);
      Read(Line(true, [], false, false), typed + [4] + rest, count, after)
      == Outcome(n, line[..n], line == [], Line(true, line[n..], n < |line|, false), rest)
  {
    FillLine([], typed, 4, rest, -EAGAIN, after);
    hide Fill, Typed, Fits;
    TakeFinished(line, rest, count);
  }

  lemma TakeFinished(all: seq<byte>, rest: seq<byte>, count: nat)
    ensures var n := Min(count, |all|);
      Take(Filled(Line(true, all, true, all == []), rest, 1, 0), count)
      == Outcome(n, all[..n], all == [], Line(true, all[n..], n < |all|, false), rest)
  {
  }

  /** A line of ordinary characters, with some of them erased by bytes 8 or 127: what is left of them is read back, as
      it was typed, with its newline or, behind byte 4, without. */
  lemma TypedAndRead(s: seq<byte>, erases: seq<byte>, t: seq<byte>, rest: seq<byte>, count: nat, after: int)
    requires forall i :: 0 <= i < |s + t| ==>
      (s + t)[i] != 10 && (s + t)[i] != 4 && (s + t)[i] != 8 && (s + t)[i] != 0x7f && (s + t)[i] != 0x15
    requires forall i :: 0 <= i < |erases| ==> erases[i] == 8 || erases[i] == 0x7f
    requires |s| < 256 && |Without(s, |erases|)| + |t| < 256
    ensures var line := Without(s, |erases|) + t;
      var all := line + [10];
      var n, m := Min(count, |all|), Min(count, |line|);
      && Read(Line(true, [], false, false), s + erases + t + [10] + rest, count, after)
         == Outcome(n, all[..n], false, Line(true, all[n..], n < |all|, false), rest)
      && Read(Line(true, [], false, false), s + erases + t + [4] + rest, count, after)
         == Outcome(m, line[..m], line == [], Line(true, line[m..], m < |line|, false), rest)
  {
    hide Read, Typed, Fits, Without;
    var typed, line := s + erases + t, Without(s, |erases|) + t;
    EditedTyped(s, erases, t, typed);
    LineRead(typed, line, rest, count, after);
    EndedRead(typed, line, rest, count, after);
  }

  lemma EditedTyped(s: seq<byte>, erases: seq<byte>, t: seq<byte>, typed: seq<byte>)
    requires forall i :: 0 <= i < |s + t| ==>
      (s + t)[i] != 10 && (s + t)[i] != 4 && (s + t)[i] != 8 && (s + t)[i] != 0x7f && (s + t)[i] != 0x15
    requires forall i :: 0 <= i < |erases| ==> erases[i] == 8 || erases[i] == 0x7f
    requires |s| < 256 && |Without(s, |erases|)| + |t| < 256 && typed == s + erases + t
    ensures Typed([], typed) == Without(s, |erases|) + t && Fits([], typed)
    ensures forall i :: 0 <= i < |typed| ==> typed[i] != 10 && typed[i] != 4
  {
    hide Typed, Fits, Without;
    PlainParts(s, t);
    TypedPlain([], s);
    TypedErases(s, erases);
    TypedPlain(Without(s, |erases|), t);
    assert [] + s == s;
    TypedConcat([], s, erases);
    TypedConcat([], s + erases, t);
  }

  lemma PlainParts(s: seq<byte>, t: seq<byte>)
    requires forall i :: 0 <= i < |s + t| ==>
      (s + t)[i] != 10 && (s + t)[i] != 4 && (s + t)[i] != 8 && (s + t)[i] != 0x7f && (s + t)[i] != 0x15
    ensures forall i :: 0 <= i < |s| ==> s[i] != 10 && s[i] != 4 && s[i] != 8 && s[i] != 0x7f && s[i] != 0x15
    ensures forall i :: 0 <= i < |t| ==> t[i] != 10 && t[i] != 4 && t[i] != 8 && t[i] != 0x7f && t[i] != 0x15
  {
    assert forall i :: 0 <= i < |s| ==> (s + t)[i] == s[i];
    assert forall i :: 0 <= i < |t| ==> (s + t)[|s| + i] == t[i];
  }

  /** Byte 21 takes back the whole line. */
  lemma ClearedAndRead(s: seq<byte>, t: seq<byte>, rest: seq<byte>, after: int)
    requires forall i :: 0 <= i < |s + t| ==>
      (s + t)[i] != 10 && (s + t)[i] != 4 && (s + t)[i] != 8 && (s + t)[i] != 0x7f && (s + t)[i] != 0x15
    requires |s| < 256 && |t| < 256
    ensures Read(Line(true, [], false, false), s + [0x15] + t + [10] + rest, 256, after)
      == Outcome(|t| + 1, t + [10], false, Line(true, [], false, false), rest)
  {
    hide Read, Typed, Fits;
    var typed, all := s + [0x15] + t, t + [10];
    ClearedTyped(s, t, typed);
    LineRead(typed, t, rest, 256, after);
    assert all[..|all|] == all && all[|all|..] == [];
  }

  lemma ClearedTyped(s: seq<byte>, t: seq<byte>, typed: seq<byte>)
    requires forall i :: 0 <= i < |s + t| ==>
      (s + t)[i] != 10 && (s + t)[i] != 4 && (s + t)[i] != 8 && (s + t)[i] != 0x7f && (s + t)[i] != 0x15
    requires |s| < 256 && |t| < 256 && typed == s + [0x15] + t
    ensures Typed([], typed) == t && Fits([], typed)
    ensures forall i :: 0 <= i < |typed| ==> typed[i] != 10 && typed[i] != 4
  {
    assert Typed(s, [0x15]) == [] && Fits(s, [0x15]);
    hide Typed, Fits;
    PlainParts(s, t);
    TypedPlain([], s);
    TypedPlain([], t);
    assert [] + s == s && [] + t == t;
    TypedConcat([], s, [0x15]);
    TypedConcat([], s + [0x15], t);
  }

  lemma {:induction false} PlainFill(buf: seq<byte>, s: seq<byte>, portres: int, after: int)
    requires forall i :: 0 <= i < |s| ==> s[i] != 10 && s[i] != 4 && s[i] != 8 && s[i] != 0x7f && s[i] != 0x15
    requires |buf| + |s| < 256
    ensures Fill(Line(true, buf, false, false), s, portres, after)
      == Filled(Line(true, buf + s, false, false), [], after, 0)
    decreases |s|
  {
    if s != [] {
      PlainFill(buf + [s[0]], s[1..], 1, after);
      assert buf + [s[0]] + s[1..] == buf + s;
    }
  }

  /** Without an end of the line nothing is read, and what was typed stays; the port itself may be at its end. */
  lemma UnfinishedRead(s: seq<byte>, count: nat, after: int)
    requires forall i :: 0 <= i < |s| ==> s[i] != 10 && s[i] != 4 && s[i] != 8 && s[i] != 0x7f && s[i] != 0x15
    requires |s| < 256
    ensures Read(Line(true, [], false, false), s, count, after)
      == Outcome(if s == [] && after == 0 then 0 else -15, [], false, Line(true, s, false, false), [])
  {
    PlainFill([], s, -EAGAIN, after);
    assert [] + s == s;
  }

  // ---------------------------------------------------------------------------------------------
  // Raw input

  lemma {:induction false} RawFill(buf: seq<byte>, s: seq<byte>, portres: int, after: int)
    requires |buf| <= 256
    ensures var n := Min(256 - |buf|, |s|);
      var f := Fill(Line(false, buf, false, false), s, portres, after);
      f.t == Line(false, buf + s[..n], false, false) && f.port == s[n..] && f.res == 0
    decreases |s|
  {
    if |buf| < 256 && s != [] {
      RawFill(buf + [s[0]], s[1..], 1, after);
      var n := Min(256 - |buf|, |s|);
      assert buf + [s[0]] + s[1..][..n - 1] == buf + s[..n];
    }
  }

  /** In raw mode every byte passes as it is, up to 256 of them in one read. */
  lemma RawRead(s: seq<byte>, after: int)
    requires s != []
    ensures var n := Min(256, |s|);
      Read(Line(false, [], false, false), s, 256, after)
      == Outcome(n, s[..n], false, Line(false, [], false, false), s[n..])
  {
    RawFill([], s, -EAGAIN, after);
    var n := Min(256, |s|);
    assert [] + s[..n] == s[..n];
  }

  // ---------------------------------------------------------------------------------------------
  // A reader of the device

  /** Somebody types a line at a fresh terminal, erasing some of it; a read with room for it gets what is left, and its
      newline. */
  method TypeAndRead(s: seq<byte>, erases: seq<byte>, t: seq<byte>, dst: array<byte>) returns (ret: int)
    requires forall i :: 0 <= i < |s + t| ==>
      (s + t)[i] != 10 && (s + t)[i] != 4 && (s + t)[i] != 8 && (s + t)[i] != 0x7f && (s + t)[i] != 0x15
    requires forall i :: 0 <= i < |erases| ==> erases[i] == 8 || erases[i] == 0x7f
    requires |s| < 256 && |Without(s, |erases|)| + |t| < 256 && dst.Length == 256
    modifies dst
    ensures var line := Without(s, |erases|) + t + [10];
      ret == |line| <= 256 && dst[..ret] == line && dst[ret..] == old(dst[ret..])
  {
    hide Tty.Read, Without;
    TypedAndRead(s, erases, t, [], 256, -15);
    var d := new Device(true);
    d.port := s + erases + t + [10] + [];
    ret := d.Read(dst, 256, -15);
  }
}
