/** The terminal driver's buffer and flags, changed in place as the line discipline says. */
module TtyDriver {
  import opened ByteTypes
  import opened Tty

  /** Bytes `lo` up to `hi` of a copy from `src` to `dest` are done. */
  ghost predicate Moved(before: seq<byte>, now: seq<byte>, dest: nat, src: nat, lo: nat, hi: nat) {
    && |now| == |before| && src + hi <= |before|
    && (forall i :: dest + lo <= i < dest + hi && i < |now| ==> now[i] == before[src - dest + i])
    && (forall i :: 0 <= i < |now| && !(dest + lo <= i < dest + hi) ==> now[i] == before[i])
  }

  /** One byte more: the next one of a copy downwards, or the one before of a copy upwards, is still there. */
  lemma MoveOne(before: seq<byte>, now: seq<byte>, dest: nat, src: nat, lo: nat, hi: nat, k: nat)
    requires Moved(before, now, dest, src, lo, hi) && lo <= hi && dest + k < |now| && src + k < |now|
    requires (dest < src && k == hi) || (src < dest && k + 1 == lo)
    ensures var next := now[dest + k := now[src + k]];
      Moved(before, next, dest, src, if k < lo then k else lo, if k < lo then hi else k + 1)
  {
  }

  lemma MovedAll(before: seq<byte>, now: seq<byte>, dest: nat, src: nat, n: nat)
    requires Moved(before, now, dest, src, 0, n) && dest + n <= |now|
    ensures |now| == |before| && src + n <= |now| && now[dest..dest + n] == before[src..src + n]
    ensures now[..dest] == before[..dest] && now[dest + n..] == before[dest + n..]
  {
  }

  /** Overlap-safe copy of `n` bytes inside one array. */
  method Memmove(a: array<byte>, dest: nat, src: nat, n: nat)
    requires dest + n <= a.Length && src + n <= a.Length
    modifies a
    ensures a[dest..dest + n] == old(a[src..src + n])
    ensures a[..dest] == old(a[..dest]) && a[dest + n..] == old(a[dest + n..])
  {
    if n == 0 || src == dest { return; }
    ghost var before := a[..];
    assert Moved(before, before, dest, src, 0, 0) && Moved(before, before, dest, src, n, n);
    hide Moved;
    if src > dest {
      var k: nat := 0;
      while k < n
        invariant k <= n && Moved(before, a[..], dest, src, 0, k)
      {
        MoveOne(before, a[..], dest, src, 0, k, k);
        a[dest + k] := a[src + k];
        k := k + 1;
      }
    } else {
      var k: nat := n;
      while k > 0
        invariant k <= n && Moved(before, a[..], dest, src, k, n)
      {
        MoveOne(before, a[..], dest, src, k, n, k - 1);
        k := k - 1;
        a[dest + k] := a[src + k];
      }
    }
    MovedAll(before, a[..], dest, src, n);
  }

  method Memcpy(dest: array<byte>, src: array<byte>, n: nat)
    requires dest != src && n <= dest.Length && n <= src.Length
    modifies dest
    ensures dest[..n] == src[..n] && dest[n..] == old(dest[n..])
  {
    var k := 0;
    while k < n
      invariant 0 <= k <= n && dest[..k] == src[..k] && dest[k..] == old(dest[k..])
    {
      dest[k] := src[k];
      k := k + 1;
    }
  }

  datatype Handler = NoHandler | OnEof | Erase | Kill
  datatype SpecialChar = SpecialChar(ch: byte, endsLine: bool, isInput: bool, onrecv: Handler)

  const SPECIALCHARS: seq<SpecialChar> := [
    SpecialChar(NEWLINE, true, true, NoHandler),
    SpecialChar(CTRL_D, true, false, OnEof),
    SpecialChar(BACKSPACE, false, false, Erase),
    SpecialChar(DELETE, false, false, Erase),
    SpecialChar(CTRL_U, false, false, Kill)]

  /** One terminal with the bytes waiting at its port. */
  class Device {
    const cooked: bool
    const ibuf: array<byte>
    var ilen: nat
    var eol: bool
    var eof: bool
    var port: seq<byte>

    constructor (cooked: bool)
      ensures Valid() && Abs() == Line(cooked, [], false, false) && port == [] && fresh(ibuf)
    {
      this.cooked := cooked;
      ibuf := new byte[IBUFSZ](_ => 0);
      ilen, eol, eof, port := 0, false, false, [];
    }

    ghost predicate Valid()
      reads this
    {
      ibuf.Length == IBUFSZ && ilen <= IBUFSZ
    }

    ghost function Abs(): Line
      reads this, ibuf
      requires Valid()
    {
      Line(cooked, ibuf[..ilen], eol, eof)
    }

    method AddToInbuf(ch: byte) returns (res: int)
      requires Valid()
      modifies this`ilen, ibuf
      ensures Valid() && (Abs(), res) == Tty.AddToInbuf(old(Abs()), ch)
      ensures res == if old(ilen) == 256 then -21 else 0
    {
      if ilen == IBUFSZ { return -ENOBUFS; }
      ibuf[ilen] := ch;
      ilen := ilen + 1;
      assert ibuf[..ilen] == old(ibuf[..ilen]) + [ch];
      return 0;
    }

    method Backspace()
      requires Valid()
      modifies this`ilen
      ensures Valid() && ilen == if old(ilen) == 0 then 0 else old(ilen) - 1
      ensures var buf := old(Abs().buf); Abs().buf == if buf == [] then [] else buf[..|buf| - 1]
    {
      if ilen == 0 { return; }
      ilen := ilen - 1;
    }

    method Clearline()
      requires Valid()
      modifies this`ilen
      ensures Valid() && ilen == 0
    {
      var n := ilen;
      while n != 0
        invariant Valid() && ilen == n
      {
        Backspace();
        n := n - 1;
      }
    }

    method EndOfInput()
      modifies this`eol, this`eof
      ensures eol && eof == (old(eof) || ilen == 0)
    {
      eol := true;
      if ilen == 0 { eof := true; }
    }

    method InChar(ch: byte) returns (res: int)
      requires Valid()
      modifies this`ilen, this`eol, this`eof, ibuf
      ensures Valid() && (Abs(), res) == Tty.InChar(old(Abs()), ch)
    {
      if !cooked {
        res := AddToInbuf(ch);
        return;
      }
      if eol { return -ENOBUFS; }
      for i := 0 to |SPECIALCHARS|
        invariant forall j :: 0 <= j < i ==> ch != SPECIALCHARS[j].ch
        invariant Valid() && Abs() == old(Abs())
      {
        var special := SPECIALCHARS[i];
        if ch != special.ch { continue; }
        if special.endsLine { eol := true; }
        match special.onrecv {
          case NoHandler =>
          case OnEof => EndOfInput();
          case Erase => Backspace();
          case Kill => Clearline();
        }
        if special.isInput {
          res := AddToInbuf(ch);
          return;
        }
        return 0;
      }
      assert SPECIALCHARS[0].ch == NEWLINE && SPECIALCHARS[1].ch == CTRL_D && SPECIALCHARS[4].ch == CTRL_U;
      assert SPECIALCHARS[2].ch == BACKSPACE && SPECIALCHARS[3].ch == DELETE;
      res := AddToInbuf(ch);
    }

    /** `after` is what the port answers once it has no more bytes. */
    method Read(dst: array<byte>, count: nat, after: int) returns (ret: int)
      requires Valid() && dst != ibuf && count <= dst.Length && after <= 0
      modifies this, ibuf, dst
      ensures Valid()
      ensures var o := Tty.Read(old(Abs()), old(port), count, after);
        && ret == o.ret && Abs() == o.t && port == o.port && |o.bytes| <= dst.Length
        && dst[..|o.bytes|] == o.bytes && dst[|o.bytes|..] == old(dst[..])[|o.bytes|..]
    {
      var portres := -EAGAIN;
      ghost var f := Fill(Abs(), port, -EAGAIN, after);
      while ilen < IBUFSZ && !eol
        invariant Valid() && f == Fill(Abs(), port, portres, after)
        invariant dst[..] == old(dst[..])
        decreases |port|
      {
        if port == [] {
          portres := after;
          break;
        }
        portres := 1;
        var ch := port[0];
        port := port[1..];
        var res := InChar(ch);
        if res < 0 { return res; }
      }
      assert Abs() == f.t && port == f.port && portres == f.portres && f.res == 0;
      hide Fill;
      ret := Deliver(dst, count, portres, f);
    }

    /** The second half of `tty_read`: moves finished input to the reader. */
    method Deliver(dst: array<byte>, count: nat, portres: int, ghost f: Filled) returns (ret: int)
      requires Valid() && dst != ibuf && count <= dst.Length
      requires f == Filled(Abs(), port, portres, 0)
      modifies this`ilen, this`eol, this`eof, ibuf, dst
      ensures Valid()
      ensures var o := Take(f, count);
        && ret == o.ret && Abs() == o.t && port == o.port && |o.bytes| <= dst.Length
        && dst[..|o.bytes|] == o.bytes && dst[|o.bytes|..] == old(dst[..])[|o.bytes|..]
    {
      if ilen == 0 {
        if portres == 0 { return 0; }
        if cooked && eof {
          eof, eol := false, false;
          return 0;
        }
        return -EAGAIN;
      }
      if cooked && !eol { return -EAGAIN; }
      var retct := if ilen < count then ilen else count;
      ghost var buf := ibuf[..ilen];
      Memcpy(dst, ibuf, retct);
      Memmove(ibuf, 0, retct, ilen - retct);
      assert ibuf[..ilen - retct] == buf[retct..];
      ilen := ilen - retct;
      if ilen == 0 { eol := false; }
      return retct;
    }
  }
}
