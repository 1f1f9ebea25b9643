/** The terminal's line discipline, against a fold of line editing over the bytes it has taken. */
module Tty {
  import opened ByteTypes
  import opened Common

  const IBUFSZ: nat := 256
  const EAGAIN: int := 15
  const ENOBUFS: int := 21
  const NEWLINE: byte := 10
  const CTRL_D: byte := 4
  const BACKSPACE: byte := 8
  const DELETE: byte := 0x7f
  const CTRL_U: byte := 0x15

  // ---------------------------------------------------------------------------------------------
  // What typing means: the reference

  /** What a reader receives: bytes, and the end-of-file mark typed on an empty line. */
  datatype Token = Byte(b: byte) | Eof

  /** Finished input, and the line being typed, which can still be edited. */
  datatype Edit = Edit(stream: seq<Token>, line: seq<byte>)

  function Bytes(s: seq<byte>): (r: seq<Token>)
    ensures |r| == |s| && forall i :: 0 <= i < |s| ==> r[i] == Byte(s[i])
  {
    seq(|s|, i requires 0 <= i < |s| => Byte(s[i]))
  }

  function Key(e: Edit, ch: byte): Edit {
    if ch == NEWLINE then Edit(e.stream + Bytes(e.line + [ch]), [])
    else if ch == CTRL_D then Edit(e.stream + (if e.line == [] then [Eof] else Bytes(e.line)), [])
    else if ch == BACKSPACE || ch == DELETE then e.(line := if e.line == [] then [] else e.line[..|e.line| - 1])
    else if ch == CTRL_U then e.(line := [])
    else e.(line := e.line + [ch])
  }

  /** Cooked input is edited line by line; raw input passes through. */
  function Fold(cooked: bool, input: seq<byte>): Edit {
    if !cooked then Edit(Bytes(input), [])
    else if input == [] then Edit([], [])
    else Key(Fold(cooked, input[..|input| - 1]), input[|input| - 1])
  }

  // ---------------------------------------------------------------------------------------------
  // The device

  datatype Line = Line(cooked: bool, buf: seq<byte>, eol: bool, eof: bool)

  function AddToInbuf(t: Line, ch: byte): (Line, int) {
    if |t.buf| == IBUFSZ then (t, -ENOBUFS) else (t.(buf := t.buf + [ch]), 0)
  }

  function InChar(t: Line, ch: byte): (Line, int) {
    if !t.cooked then AddToInbuf(t, ch)
    else if t.eol then (t, -ENOBUFS)
    else if ch == NEWLINE then AddToInbuf(t.(eol := true), ch)
    else if ch == CTRL_D then (t.(eol := true, eof := t.eof || t.buf == []), 0)
    else if ch == BACKSPACE || ch == DELETE then (t.(buf := if t.buf == [] then [] else t.buf[..|t.buf| - 1]), 0)
    else if ch == CTRL_U then (t.(buf := []), 0)
    else AddToInbuf(t, ch)
  }

  /** The device after the first loop of `tty_read`, what is left at the port, the port's last answer, and
      the error the loop stopped with, if any. */
  datatype Filled = Filled(t: Line, port: seq<byte>, portres: int, res: int)

  /** Takes bytes from the port until the buffer is full, a line is finished or the port has no more; an
      empty port answers `after`: 0 at its end, negative for an error or for no data yet. */
  function Fill(t: Line, port: seq<byte>, portres: int, after: int): Filled
    decreases |port|
  {
    if |t.buf| >= IBUFSZ || t.eol then Filled(t, port, portres, 0)
    else if port == [] then Filled(t, port, after, 0)
    else
      var (t', res) := InChar(t, port[0]);
      if res < 0 then Filled(t', port[1..], 1, res) else Fill(t', port[1..], 1, after)
  }

  /** A read's return value, the bytes it stored, whether it reported a typed end of file, and what it leaves. */
  datatype Outcome = Outcome(ret: int, bytes: seq<byte>, eof: bool, t: Line, port: seq<byte>)

  function Take(f: Filled, count: nat): Outcome {
    var t := f.t;
    if f.res < 0 then Outcome(f.res, [], false, t, f.port)
    else if t.buf == [] then
      if f.portres == 0 then Outcome(0, [], false, t, f.port)
      else if t.cooked && t.eof then Outcome(0, [], true, t.(eof := false, eol := false), f.port)
      else Outcome(-EAGAIN, [], false, t, f.port)
    else if t.cooked && !t.eol then Outcome(-EAGAIN, [], false, t, f.port)
    else
      var n := if |t.buf| < count then |t.buf| else count;
      var rest := t.buf[n..];
      Outcome(n, t.buf[..n], false, t.(buf := rest, eol := t.eol && rest != []), f.port)
  }

  function Read(t: Line, port: seq<byte>, count: nat, after: int): Outcome {
    Take(Fill(t, port, -EAGAIN, after), count)
  }

  // ---------------------------------------------------------------------------------------------
  // The device follows the reference

  /** End of file is pending exactly when a line was ended empty. Raw devices never end lines. */
  predicate Wf(t: Line) {
    && |t.buf| <= IBUFSZ
    && (t.eof <==> t.eol && t.buf == [])
    && (t.eol ==> t.cooked)
  }

  function Pending(t: Line): seq<Token> {
    if t.eof then [Eof] else Bytes(t.buf)
  }

  /** What was delivered, followed by what is buffered, is the edited form of what was consumed; a finished
      line in the buffer is past editing, an unfinished one is the line being edited. */
  predicate Follows(t: Line, consumed: seq<byte>, delivered: seq<Token>) {
    var e := Fold(t.cooked, consumed);
    && Wf(t)
    && e.stream + Bytes(e.line) == delivered + Pending(t)
    && (t.cooked ==> e.line == if t.eol then [] else t.buf)
  }

  lemma BytesAppend(a: seq<byte>, b: seq<byte>)
    ensures Bytes(a + b) == Bytes(a) + Bytes(b)
  {
  }

  /** An unfinished line means everything finished has been delivered. */
  lemma NothingPending(t: Line, consumed: seq<byte>, delivered: seq<Token>)
    requires Follows(t, consumed, delivered) && t.cooked && !t.eol
    ensures Fold(true, consumed) == Edit(delivered, t.buf)
  {
    var e := Fold(true, consumed);
    assert e.stream == (e.stream + Bytes(e.line))[..|e.stream|];
    assert delivered == (delivered + Bytes(t.buf))[..|delivered|];
  }

  lemma InCharFollows(t: Line, ch: byte, consumed: seq<byte>, delivered: seq<Token>)
    requires Follows(t, consumed, delivered) && |t.buf| < IBUFSZ && !t.eol
    ensures InChar(t, ch).1 == 0 && InChar(t, ch).0.cooked == t.cooked
    ensures Follows(InChar(t, ch).0, consumed + [ch], delivered)
  {
    if t.cooked {
      KeyFollows(t, ch, consumed, delivered);
    } else {
      RawFollows(t, ch, consumed, delivered);
    }
  }

  lemma KeyFollows(t: Line, ch: byte, consumed: seq<byte>, delivered: seq<Token>)
    requires Follows(t, consumed, delivered) && |t.buf| < IBUFSZ && !t.eol && t.cooked
    ensures InChar(t, ch).1 == 0 && InChar(t, ch).0.cooked
    ensures Follows(InChar(t, ch).0, consumed + [ch], delivered)
  {
    NothingPending(t, consumed, delivered);
    var input := consumed + [ch];
    assert input[..|input| - 1] == consumed;
    assert Fold(true, input) == Key(Edit(delivered, t.buf), ch);
    assert Bytes([]) == [];
    assert delivered + [] == delivered;
  }

  lemma RawFollows(t: Line, ch: byte, consumed: seq<byte>, delivered: seq<Token>)
    requires Follows(t, consumed, delivered) && |t.buf| < IBUFSZ && !t.eol && !t.cooked
    ensures InChar(t, ch).1 == 0 && !InChar(t, ch).0.cooked
    ensures Follows(InChar(t, ch).0, consumed + [ch], delivered)
  {
    BytesAppend(consumed, [ch]);
    BytesAppend(t.buf, [ch]);
    hide Bytes;
    assert Bytes(consumed) + [] == Bytes(consumed) == delivered + Bytes(t.buf);
    assert Bytes(consumed + [ch]) + [] == delivered + (Bytes(t.buf) + Bytes([ch]));
  }

  /** Reading never fails for want of room: the loop offers a byte only to a device that takes it. */
  lemma {:induction false} FillFollows(t: Line, port: seq<byte>, portres: int, after: int,
                                       consumed: seq<byte>, delivered: seq<Token>)
    returns (taken: seq<byte>)
    requires Follows(t, consumed, delivered)
    ensures var f := Fill(t, port, portres, after);
      && f.res == 0
      && f.t.cooked == t.cooked
      && port == taken + f.port
      && Follows(f.t, consumed + taken, delivered)
    decreases |port|
  {
    if |t.buf| >= IBUFSZ || t.eol || port == [] {
      taken := [];
      assert consumed + taken == consumed;
    } else {
      InCharFollows(t, port[0], consumed, delivered);
      assert Fill(t, port, portres, after) == Fill(InChar(t, port[0]).0, port[1..], 1, after);
      hide Follows, InChar, Fill;
      var more := FillFollows(InChar(t, port[0]).0, port[1..], 1, after, consumed + [port[0]], delivered);
      taken := [port[0]] + more;
      Regroup(consumed, [port[0]], more);
      Regroup([port[0]], more, Fill(t, port, portres, after).port);
      assert port == [port[0]] + port[1..];
    }
  }

  function Received(o: Outcome): seq<Token> {
    Bytes(o.bytes) + if o.eof then [Eof] else []
  }

  lemma TakePending(f: Filled, count: nat)
    requires Wf(f.t) && f.res == 0
    ensures var o := Take(f, count); Wf(o.t) && Received(o) + Pending(o.t) == Pending(f.t)
  {
    var o := Take(f, count);
    var t := f.t;
    if t.buf == [] || (t.cooked && !t.eol) {
      assert Received(o) + Pending(o.t) == Pending(f.t);
    } else {
      assert t.buf == o.bytes + o.t.buf;
      BytesAppend(o.bytes, o.t.buf);
      assert Bytes([]) == [];
      hide Bytes;
    }
  }

  lemma TakeFollows(f: Filled, count: nat, consumed: seq<byte>, delivered: seq<Token>)
    requires Follows(f.t, consumed, delivered) && f.res == 0
    ensures Follows(Take(f, count).t, consumed, delivered + Received(Take(f, count)))
  {
    hide Bytes, Fold, Received, Pending, Wf;
    TakePending(f, count);
    var o := Take(f, count);
    Regroup(delivered, Received(o), Pending(o.t));
    TakeKeepsLine(f, count);
    hide Take;
  }

  /** Only a finished line is taken from, and what is left of it is still finished. */
  lemma TakeKeepsLine(f: Filled, count: nat)
    requires Wf(f.t) && f.res == 0
    ensures var t := Take(f, count).t;
      && t.cooked == f.t.cooked
      && (t.cooked ==> (if t.eol then [] else t.buf) == if f.t.eol then [] else f.t.buf)
  {
  }

  lemma ReadFollows(t: Line, port: seq<byte>, count: nat, after: int, consumed: seq<byte>, delivered: seq<Token>)
    returns (taken: seq<byte>)
    requires Follows(t, consumed, delivered)
    ensures var o := Read(t, port, count, after);
      && o.ret != -ENOBUFS
      && o.t.cooked == t.cooked
      && port == taken + o.port
      && Follows(o.t, consumed + taken, delivered + Received(o))
  {
    hide Follows, Fill;
    taken := FillFollows(t, port, -EAGAIN, after, consumed, delivered);
    TakeFollows(Fill(t, port, -EAGAIN, after), count, consumed + taken, delivered);
  }

  // ---------------------------------------------------------------------------------------------
  // Whole sessions

  datatype Op = Arrive(bytes: seq<byte>) | ReadUpTo(count: nat, after: int)

  datatype Session = Session(t: Line, port: seq<byte>, received: seq<Token>)

  function Do(s: Session, op: Op): Session {
    match op
    case Arrive(bytes) => s.(port := s.port + bytes)
    case ReadUpTo(count, after) =>
      var o := Read(s.t, s.port, count, after);
      Session(o.t, o.port, s.received + Received(o))
  }

  function Play(s: Session, ops: seq<Op>): Session
    decreases |ops|
  {
    if ops == [] then s else Play(Do(s, ops[0]), ops[1..])
  }

  function Arrived(ops: seq<Op>): seq<byte> {
    if ops == [] then [] else (if ops[0].Arrive? then ops[0].bytes else []) + Arrived(ops[1..])
  }

  lemma {:induction false} PlayFollows(s: Session, ops: seq<Op>, consumed: seq<byte>)
    returns (taken: seq<byte>)
    requires Follows(s.t, consumed, s.received)
    ensures var p := Play(s, ops);
      && p.t.cooked == s.t.cooked
      && s.port + Arrived(ops) == taken + p.port
      && Follows(p.t, consumed + taken, p.received)
    decreases |ops|
  {
    hide Follows, Read, Received;
    if ops == [] {
      taken := [];
      assert consumed + taken == consumed;
    } else {
      var first := [];
      if ops[0].ReadUpTo? {
        first := ReadFollows(s.t, s.port, ops[0].count, ops[0].after, consumed, s.received);
      }
      assert consumed + [] == consumed;
      var s1 := Do(s, ops[0]);
      var got := if ops[0].Arrive? then ops[0].bytes else [];
      assert s.port + got == first + s1.port;
      var more := PlayFollows(s1, ops[1..], consumed + first);
      taken := first + more;
      hide Do, Arrived, Play;
      var p := Play(s1, ops[1..]);
      PlayStep(s, ops);
      Rejoin(s.port, got, Arrived(ops[1..]), first, s1.port, more, p.port);
      assert consumed + first + more == consumed + taken;
    }
  }

  lemma PlayStep(s: Session, ops: seq<Op>)
    requires ops != []
    ensures Play(s, ops) == Play(Do(s, ops[0]), ops[1..])
    ensures Arrived(ops) == (if ops[0].Arrive? then ops[0].bytes else []) + Arrived(ops[1..])
  {
  }

  lemma Rejoin(port: seq<byte>, got: seq<byte>, rest: seq<byte>,
               first: seq<byte>, mid: seq<byte>, more: seq<byte>, left: seq<byte>)
    requires port + got == first + mid && mid + rest == more + left
    ensures port + (got + rest) == first + more + left
  {
    Regroup(port, got, rest);
    Regroup(first, mid, rest);
    Regroup(first, more, left);
  }

  /** However bytes arrive and whatever sizes are read: what was received, followed by what is buffered, is
      the edited form of a prefix of what arrived, and only finished lines were received. */
  lemma SessionFollows(cooked: bool, ops: seq<Op>) returns (consumed: seq<byte>)
    ensures var p := Play(Session(Line(cooked, [], false, false), [], []), ops);
      var e := Fold(cooked, consumed);
      && Arrived(ops) == consumed + p.port
      && p.received + Pending(p.t) == e.stream + Bytes(e.line)
      && p.received <= e.stream
  {
    var s := Session(Line(cooked, [], false, false), [], []);
    assert Bytes([]) == [];
    assert [] + Bytes([]) == [] + Pending(s.t);
    consumed := PlayFollows(s, ops, []);
    assert [] + consumed == consumed && s.port + Arrived(ops) == Arrived(ops);
    var p := Play(s, ops);
    var e := Fold(cooked, consumed);
    assert e.stream + [] == e.stream;
    if e.line != [] {
      assert e.line == p.t.buf;
      NothingPending(p.t, consumed, p.received);
    } else {
      assert p.received <= p.received + Pending(p.t);
    }
  }

  // ---------------------------------------------------------------------------------------------
  // What editing can and cannot do

  predicate Ordinary(ch: byte) {
    ch != NEWLINE && ch != CTRL_D && ch != BACKSPACE && ch != DELETE && ch != CTRL_U
  }

  predicate EndsLine(ch: byte) {
    ch == NEWLINE || ch == CTRL_D
  }

  lemma FoldSnoc(s: seq<byte>, ch: byte)
    ensures Fold(true, s + [ch]) == Key(Fold(true, s), ch)
  {
    var input := s + [ch];
    assert input[..|input| - 1] == s;
  }

  /** Erasing takes back an ordinary character. */
  lemma EraseUndoes(s: seq<byte>, ch: byte, erase: byte)
    requires Ordinary(ch) && (erase == BACKSPACE || erase == DELETE)
    ensures Fold(true, s + [ch] + [erase]) == Fold(true, s)
  {
    FoldSnoc(s, ch);
    FoldSnoc(s + [ch], erase);
  }

  /** No later typing takes back a finished line; without a line end it cannot add one either. */
  lemma {:induction false} FinishedStays(s: seq<byte>, more: seq<byte>)
    ensures Fold(true, s).stream <= Fold(true, s + more).stream
    ensures (forall i :: 0 <= i < |more| ==> !EndsLine(more[i])) ==> Fold(true, s + more).stream == Fold(true, s).stream
  {
    if more == [] {
      assert s + more == s;
    } else {
      var init, last := more[..|more| - 1], more[|more| - 1];
      FinishedStays(s, init);
      FoldSnoc(s + init, last);
      assert s + more == s + init + [last];
    }
  }

  /** Clearing the line takes back everything typed since the last line end. */
  lemma KillUndoes(s: seq<byte>, more: seq<byte>)
    requires forall i :: 0 <= i < |more| ==> !EndsLine(more[i])
    ensures Fold(true, s + more + [CTRL_U]) == Edit(Fold(true, s).stream, [])
  {
    hide Fold;
    FinishedStays(s, more);
    FoldSnoc(s + more, CTRL_U);
  }

  // ---------------------------------------------------------------------------------------------
  // Finished lines are delivered

  /** The line after typing `s`, which ends no line, on `buf`. */
  function Typed(buf: seq<byte>, s: seq<byte>): seq<byte>
    decreases |s|
  {
    if s == [] then buf else Typed(Key(Edit([], buf), s[0]).line, s[1..])
  }

  /** The line never fills the buffer while `s` is typed. */
  predicate Fits(buf: seq<byte>, s: seq<byte>)
    decreases |s|
  {
    |buf| < IBUFSZ && (s != [] ==> Fits(Key(Edit([], buf), s[0]).line, s[1..]))
  }

  lemma {:induction false} TypedIsFold(base: seq<byte>, s: seq<byte>)
    requires forall i :: 0 <= i < |s| ==> !EndsLine(s[i])
    ensures Fold(true, base + s).line == Typed(Fold(true, base).line, s)
    decreases |s|
  {
    if s == [] {
      assert base + s == base;
    } else {
      FoldSnoc(base, s[0]);
      TypedIsFold(base + [s[0]], s[1..]);
      assert base + [s[0]] + s[1..] == base + s;
    }
  }

  lemma {:induction false} FillLine(buf: seq<byte>, s: seq<byte>, end: byte, rest: seq<byte>, portres: int, after: int)
    requires EndsLine(end) && Fits(buf, s)
    requires forall i :: 0 <= i < |s| ==> !EndsLine(s[i])
    ensures |Typed(buf, s)| < IBUFSZ
    ensures var line := Typed(buf, s);
      Fill(Line(true, buf, false, false), s + [end] + rest, portres, after)
        == Filled(Line(true, if end == NEWLINE then line + [end] else line, true, end == CTRL_D && line == []),
                  rest, 1, 0)
    decreases |s|
  {
    var port := s + [end] + rest;
    if s == [] {
      assert port[0] == end && port[1..] == rest;
    } else {
      assert port[0] == s[0] && port[1..] == s[1..] + [end] + rest;
      FillLine(Key(Edit([], buf), s[0]).line, s[1..], end, rest, 1, after);
    }
  }

  /** A typed line that fits the buffer is read in one piece by a large enough read: with its newline, without
      the character that ended it as end of input, and as end of file when that was typed on an empty line. */
  lemma WholeLineRead(base: seq<byte>, s: seq<byte>, end: byte, rest: seq<byte>, count: nat, after: int)
    requires EndsLine(end) && Fits(Fold(true, base).line, s) && count >= IBUFSZ
    requires forall i :: 0 <= i < |s| ==> !EndsLine(s[i])
    ensures var line := Fold(true, base + s).line;
      var bytes := if end == NEWLINE then line + [end] else line;
      Read(Line(true, Fold(true, base).line, false, false), s + [end] + rest, count, after)
        == Outcome(|bytes|, bytes, bytes == [], Line(true, [], false, false), rest)
  {
    TypedIsFold(base, s);
    FillLine(Fold(true, base).line, s, end, rest, -EAGAIN, after);
  }
}
