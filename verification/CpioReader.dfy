/** The archive reader over a memory disk: header decoding, search by name, and reads of the file found. */
module CpioReader {
  import opened ByteTypes
  import opened Common
  import opened Cpio

  // ---------------------------------------------------------------------------------------------
  // The disk and a file on it

  /** `n` bytes of `m` from `off` on stand in `dst` at `at`; the rest of it is as before. */
  ghost predicate Copied(before: seq<byte>, dst: seq<byte>, at: nat, m: seq<byte>, off: nat, n: nat) {
    && |dst| == |before| && at + n <= |dst| && off + n <= |m|
    && forall i :: 0 <= i < |dst| ==> dst[i] == if at <= i < at + n then m[off + (i - at)] else before[i]
  }

  method RamdiskRead(disk: array<byte>, dst: array<byte>, at: nat, count: nat, off0: int) returns (n: nat, off: nat)
    requires disk != dst && at + count <= dst.Length
    modifies dst
    ensures var start: nat := if off0 < 0 then 0 else off0;
      && n == Available(disk.Length, count, start)
      && off == start + n
      && (n > 0 ==> Copied(old(dst[..]), dst[..], at, disk[..], start, n))
      && (n == 0 ==> dst[..] == old(dst[..]))
  {
    off := if off0 < 0 then 0 else off0;
    n := 0;
    if off >= disk.Length { return; }
    ghost var start := off;
    while n < count && off < disk.Length
      invariant n <= count && off == start + n <= disk.Length
      invariant Copied(old(dst[..]), dst[..], at, disk[..], start, n)
    {
      dst[at + n] := disk[off];
      n, off := n + 1, off + 1;
    }
  }

  /** An open file on the disk. */
  class DiskFile {
    const disk: array<byte>
    var pos: int

    constructor (disk: array<byte>)
      ensures this.disk == disk && pos == 0
    {
      this.disk, pos := disk, 0;
    }

    method Read(dst: array<byte>, at: nat, count: nat) returns (n: nat)
      requires pos >= 0 && disk != dst && at + count <= dst.Length
      modifies this`pos, dst
      ensures n == Available(disk.Length, count, old(pos)) && pos == old(pos) + n
      ensures n > 0 ==> Copied(old(dst[..]), dst[..], at, disk[..], old(pos), n)
      ensures n == 0 ==> dst[..] == old(dst[..])
    {
      if count == 0 { return 0; }
      n, pos := RamdiskRead(disk, dst, at, count, pos);
    }

    /** Reads elsewhere, without moving the position. */
    method Pread(dst: array<byte>, at: nat, count: nat, off: nat) returns (n: nat)
      requires disk != dst && at + count <= dst.Length
      modifies dst
      ensures n == Available(disk.Length, count, off)
      ensures n > 0 ==> Copied(old(dst[..]), dst[..], at, disk[..], off, n)
      ensures n == 0 ==> dst[..] == old(dst[..])
    {
      if count == 0 { return 0; }
      var end;
      n, end := RamdiskRead(disk, dst, at, count, off);
    }

    /** Moves the position, a signed 32-bit number, within its range. */
    method Seek(dist: int)
      requires LONG_MIN <= pos + dist <= LONG_MAX
      modifies this`pos
      ensures pos == old(pos) + dist
    {
      pos := pos + dist;
    }
  }

  // ---------------------------------------------------------------------------------------------
  // Headers

  /** The arithmetic of the result is that of a 32-bit integer. */
  method CpioAtoi(field: seq<byte>, base: nat) returns (ret: int)
    requires 2 <= base <= 16
    ensures ret == if IsNumber(field, base) then Int32(Number(field, base)) else -EINVAL
  {
    ret := 0;
    var k := 0;
    assert ret == Int32(0) && Number(field[..0], base) == 0;
    hide Int32;
    while k < |field|
      invariant k <= |field| && IsNumber(field[..k], base) && ret == Int32(Number(field[..k], base))
    {
      var digit := HexValue(field[k]);
      if digit == 16 || digit >= base {
        return -EINVAL;
      }
      assert field[..k + 1][..k] == field[..k];
      Int32Step(Number(field[..k], base), base, digit);
      ret := Int32(ret * base + digit);
      k := k + 1;
    }
    assert field[..k] == field;
  }

  class Header {
    const bytes: array<byte>
    const pathname: array<byte>
    var hoff: int
    var psize: nat
    var ppad: nat
    var fsize: nat
    var fpad: nat
    var isEnd: bool

    constructor ()
      ensures fresh(bytes) && fresh(pathname) && Sized()
    {
      bytes := new byte[HSIZE](_ => 0);
      pathname := new byte[PATH_MAX](_ => 0);
      hoff, psize, ppad, fsize, fpad, isEnd := 0, 0, 0, 0, 0, false;
    }

    ghost predicate Sized() {
      bytes.Length == HSIZE && pathname.Length == PATH_MAX && bytes != pathname
    }

    /** The fields show what the disk `m` holds at `off`, whatever that is. */
    ghost predicate Decoded(m: seq<byte>, off: nat)
      reads this, pathname
    {
      && Sized() && NameSize(m, off) <= PATH_MAX
      && hoff == off && psize == NameSize(m, off) && fsize == FileSize(m, off)
      && HSIZE + psize + ppad == AlignUp4(HSIZE + psize) && fsize + fpad == AlignUp4(fsize)
      && pathname[..] == NameBuffer(m, off)
      && isEnd == (fsize == 0 && StringIn(pathname[..]) == TRAILER)
    }

    /** The header is that of entry `e`. */
    ghost predicate Describes(e: Entry)
      reads this, pathname
    {
      && Sized()
      && hoff == e.off && psize == |e.name| + 1 && fsize == e.size
      && HSIZE + psize + ppad == AlignUp4(HSIZE + |e.name| + 1)
      && fsize + fpad == AlignUp4(e.size)
      && isEnd == IsTrailer(e)
      && |e.name| < PATH_MAX && StringIn(pathname[..]) == e.name
    }

    lemma DescribesHeld(m: seq<byte>, e: Entry)
      requires HoldsEntry(m, e) && Decoded(m, e.off)
      ensures Describes(e)
    {
      HeldSizes(m, e);
      HeldName(m, e);
      hide HoldsEntry, NameSize, FileSize, NameBuffer, StringIn, AlignUp4;
    }
  }

  /** Whether the terminated string in a buffer is `s`; the comparison stays inside the buffer. */
  method SameString(buf: array<byte>, s: Text) returns (same: bool)
    requires |StringIn(buf[..])| < buf.Length || |s| < buf.Length
    ensures same == (StringIn(buf[..]) == s)
  {
    ghost var held := StringIn(buf[..]);
    hide StringIn;
    assert forall i :: 0 <= i < |held| ==> buf[i] == buf[..][..|held|][i];
    var k := 0;
    while true
      invariant k <= |held| && k <= |s| && held[..k] == s[..k]
      decreases |held| - k
    {
      assert k == |held| < buf.Length ==> buf[k] == buf[..][k] == 0;
      var c: byte, d: byte := buf[k], if k < |s| then s[k] else 0;
      if c != d { return false; }
      if c == 0 {
        assert k == |held| && k == |s|;
        return true;
      }
      k := k + 1;
    }
  }

  method ReadHeaderRaw(f: DiskFile, h: Header) returns (res: int)
    requires f.pos >= 0 && h.Sized() && f.disk != h.bytes && f.disk != h.pathname
    modifies h, h.bytes, h.pathname, f`pos
    ensures f.disk[..] == old(f.disk[..])
    ensures h.hoff == old(f.pos) && !h.isEnd
    ensures NoHeader(f.disk[..], old(f.pos)) ==> res == -9
    ensures !NoHeader(f.disk[..], old(f.pos)) ==>
      && res == Min(HSIZE, f.disk.Length - old(f.pos)) && f.pos == old(f.pos) + res
      && h.bytes[..] == Padded(f.disk[..], old(f.pos), HSIZE)
      && h.pathname[..] == Padded([], 0, PATH_MAX)
  {
    ghost var off, m := f.pos, f.disk[..];
    h.hoff, h.psize, h.ppad, h.fsize, h.fpad, h.isEnd := f.pos, 0, 0, 0, 0, false;
    forall i | 0 <= i < HSIZE { h.bytes[i] := 0; }
    forall i | 0 <= i < PATH_MAX { h.pathname[i] := 0; }
    var ct := f.Read(h.bytes, 0, 6);
    if ct == 0 { return -EINVAL; }
    assert forall i :: 0 <= i < 6 ==> h.bytes[i] == if i < ct then m[off + i] else 0;
    MagicRead(m, off, ct, h.bytes[..]);
    if h.bytes[..6] != MAGIC { return -EINVAL; }
    var more := f.Read(h.bytes, ct, HSIZE - ct);
    res := ct + more;
  }

  /** The first six bytes read show the magic number exactly when it is there. */
  lemma MagicRead(m: seq<byte>, off: nat, ct: nat, bytes: seq<byte>)
    requires off < |m| && ct == Available(|m|, 6, off) && |bytes| >= 6
    requires forall i :: 0 <= i < 6 ==> bytes[i] == if i < ct then m[off + i] else 0
    ensures bytes[..6] == MAGIC <==> HasMagic(m, off)
  {
    if ct < 6 {
      assert MAGIC[5] != 0 && bytes[..6][5] == 0;
    } else {
      assert bytes[..6] == m[off..off + 6];
    }
  }

  /** A decoder's result, error code or not, taken for an unsigned size. */
  lemma SizeTaken(field: seq<byte>)
    ensures (if IsNumber(field, 16) then Int32(Number(field, 16)) else -EINVAL) % TWO32 == SizeField(field)
  {
    hide Number, IsNumber;
  }

  /** Whatever stands in the fields; the paddings do not depend on sums that wrap, as 2^32 is a multiple of 4. */
  method DecodeSizes(h: Header)
    requires h.Sized()
    modifies h`psize, h`fsize, h`ppad, h`fpad
    ensures h.psize == SizeField(h.bytes[NAMESIZE_AT..NAMESIZE_AT + FIELD])
    ensures h.fsize == SizeField(h.bytes[FILESIZE_AT..FILESIZE_AT + FIELD])
    ensures HSIZE + h.psize + h.ppad == AlignUp4(HSIZE + h.psize) && h.fsize + h.fpad == AlignUp4(h.fsize)
  {
    hide AlignUp4, SizeField, IsNumber, Number, Int32;
    var psize := CpioAtoi(h.bytes[NAMESIZE_AT..NAMESIZE_AT + FIELD], 16);
    var fsize := CpioAtoi(h.bytes[FILESIZE_AT..FILESIZE_AT + FIELD], 16);
    SizeTaken(h.bytes[NAMESIZE_AT..NAMESIZE_AT + FIELD]);
    SizeTaken(h.bytes[FILESIZE_AT..FILESIZE_AT + FIELD]);
    h.psize := psize % TWO32;
    h.fsize := fsize % TWO32;
    h.ppad := AlignUp4(HSIZE + h.psize) - (HSIZE + h.psize);
    h.fpad := AlignUp4(h.fsize) - h.fsize;
  }

  /** Reads the name, as far as it fits, and skips its padding; asks for nothing but that the loop ends. */
  method ReadPathname(f: DiskFile, h: Header) returns (res: int)
    requires h.Sized() && f.disk != h.pathname && f.pos >= 0
    requires NameOnDisk(f.disk.Length, f.pos, Min(h.psize, PATH_MAX))
    requires h.psize <= PATH_MAX ==> f.pos + h.psize + h.ppad <= LONG_MAX
    modifies h.pathname, f`pos
    ensures f.disk[..] == old(f.disk[..])
    ensures h.psize > PATH_MAX ==> res == -6
    ensures h.psize <= PATH_MAX ==>
      && res == h.psize + h.ppad && f.pos == old(f.pos) + h.psize + h.ppad
      && h.pathname[..] == Padded(f.disk[..], old(f.pos), h.psize) + old(h.pathname[h.psize..])
  {
    var ct := 0;
    var readsz := Min(h.psize, PATH_MAX);
    while ct < readsz
      invariant ct <= readsz && f.pos == old(f.pos) + ct
      invariant forall i :: 0 <= i < ct ==> h.pathname[i] == f.disk[old(f.pos) + i]
      invariant forall i :: readsz <= i < PATH_MAX ==> h.pathname[i] == old(h.pathname[i])
    {
      ghost var before := h.pathname[..];
      var n := f.Read(h.pathname, ct, readsz - ct);
      assert forall i :: 0 <= i < PATH_MAX ==> h.pathname[i] == h.pathname[..][i];
      ct := ct + n;
    }
    if h.psize > PATH_MAX { return -EOVERFLOW; }
    if h.ppad != 0 { f.Seek(h.ppad); }
    return ct + h.ppad;
  }

  /** One full header of whatever kind, as long as reading its name comes to an end. */
  method ReadHeader(f: DiskFile, h: Header) returns (res: int)
    requires f.pos >= 0 && h.Sized() && f.disk != h.bytes && f.disk != h.pathname
    requires f.disk.Length + 3 <= LONG_MAX
    requires NoHeader(f.disk[..], f.pos) || NameEnds(f.disk[..], f.pos)
    modifies h, h.bytes, h.pathname, f`pos
    ensures f.disk[..] == old(f.disk[..])
    ensures var m, off := f.disk[..], old(f.pos);
      if NoHeader(m, off) then res == -9
      else if 128 < NameSize(m, off) then res == -6
      else
        && h.Decoded(m, off)
        && res == Min(HSIZE, |m| - off) + h.psize + h.ppad && f.pos == off + res
  {
    ghost var m, off := f.disk[..], f.pos;
    var ct := ReadHeaderRaw(f, h);
    assert f.disk[..] == m;
    if ct < 0 { return ct; }
    DecodeSizes(h);
    assert h.bytes[..][NAMESIZE_AT..NAMESIZE_AT + FIELD] == h.bytes[NAMESIZE_AT..NAMESIZE_AT + FIELD];
    assert h.bytes[..][FILESIZE_AT..FILESIZE_AT + FIELD] == h.bytes[FILESIZE_AT..FILESIZE_AT + FIELD];
    assert h.psize == NameSize(m, off) && h.fsize == FileSize(m, off);
    hide NoHeader, NameSize, FileSize;
    res := ReadName(f, h, off);
    if res >= 0 { res := ct + res; }
  }

  /** The part of the header that depends on its sizes: the name, and whether it is the trailer's. */
  method ReadName(f: DiskFile, h: Header, ghost off: nat) returns (res: int)
    requires h.Sized() && f.disk != h.pathname && f.pos == Min(off + HSIZE, f.disk.Length) && h.hoff == off && !h.isEnd
    requires HSIZE + h.psize + h.ppad == AlignUp4(HSIZE + h.psize) && h.fsize + h.fpad == AlignUp4(h.fsize)
    requires h.psize == NameSize(f.disk[..], off) && h.fsize == FileSize(f.disk[..], off)
    requires h.pathname[..] == Padded([], 0, PATH_MAX)
    requires NameEnds(f.disk[..], off) && f.disk.Length + 3 <= LONG_MAX
    modifies h`isEnd, h.pathname, f`pos
    ensures f.disk[..] == old(f.disk[..])
    ensures h.psize > PATH_MAX ==> res == -6
    ensures h.psize <= PATH_MAX ==>
      && res == h.psize + h.ppad && f.pos == old(f.pos) + res
      && h.Decoded(f.disk[..], off)
  {
    hide AlignUp4, NameSize, FileSize, StringIn;
    ghost var m, pos := f.disk[..], f.pos;
    res := ReadPathname(f, h);
    if res < 0 { return; }
    assert f.disk[..] == m;
    assert h.pathname[..] == NameBuffer(m, off);
    if h.fsize == 0 {
      h.isEnd := SameString(h.pathname, TRAILER);
    }
  }

  // ---------------------------------------------------------------------------------------------
  // Search

  /** Goes from header to header until one has the name `p` or the end was reached. */
  method FindPath(f: DiskFile, p: Text, h: Header, ghost es: seq<Entry>, ghost end: End) returns (res: int)
    requires f.pos >= 0 && h.Sized() && f.disk != h.bytes && f.disk != h.pathname && f.disk.Length + 3 <= LONG_MAX
    requires Holds(f.disk[..], f.pos, es, end)
    modifies h, h.bytes, h.pathname, f`pos
    ensures var k := Find(es, p);
      if k < |es| then res == k && h.Describes(es[k]) && f.pos == DataAt(es[k]) else res == Failure(end)
  {
    hide *;
    ghost var m := f.disk[..];
    h.isEnd := false;
    var i := 0;
    AheadAtStart(m, f.pos, es, end, p);
    while !h.isEnd
      invariant f.pos >= 0 && h.Sized() && f.disk[..] == m && i <= |es|
      invariant Ahead(m, f.pos, es, i, end, p, h.isEnd)
      decreases |es| - i, !h.isEnd
    {
      var same;
      res, same := VisitNext(f, p, h, es, i, end);
      if res < 0 { return; }
      if same { return i; }
      i := i + 1;
    }
    AheadAtEnd(m, f.pos, es, i, end, p);
    return -ENOENT;
  }

  /** One turn of the search: it ends here, with success or failure, or has passed one more entry. */
  method VisitNext(f: DiskFile, p: Text, h: Header, ghost es: seq<Entry>, ghost i: nat, ghost end: End)
    returns (res: int, same: bool)
    requires f.pos >= 0 && h.Sized() && f.disk != h.bytes && f.disk != h.pathname && f.disk.Length + 3 <= LONG_MAX
    requires Ahead(f.disk[..], f.pos, es, i, end, p, false)
    modifies h, h.bytes, h.pathname, f`pos
    ensures f.disk[..] == old(f.disk[..]) && i <= |es|
    ensures res < 0 ==> res == Failure(end) && Find(es, p) == |es|
    ensures res >= 0 ==> i < |es| && f.pos >= 0
    ensures res >= 0 && same ==> Find(es, p) == i && h.Describes(es[i]) && f.pos == DataAt(es[i])
    ensures res >= 0 && !same ==> Ahead(f.disk[..], f.pos, es, i + 1, end, p, h.isEnd)
  {
    ghost var m := f.disk[..];
    Look(m, f.pos, es, i, end, p);
    assert i <= |es|;
    hide Ahead, HoldsEntry, NoHeader, LongName, Find, Failure, IsTrailer, DataAt, NextAt;
    res, same := Visit(f, p, h, if i < |es| then es[i] else Entry(f.pos, [], 0));
  }

  /** The search has passed `i` entries, none of them named `p`, and stands at the next header or behind the trailer. */
  ghost predicate Ahead(m: seq<byte>, off: nat, es: seq<Entry>, i: nat, end: End, p: Text, isEnd: bool) {
    && i <= |es|
    && Find(es, p) == i + Find(es[i..], p)
    && if isEnd then i == |es| && end == AtTrailer else Holds(m, off, es[i..], end)
  }

  lemma AheadAtStart(m: seq<byte>, off: nat, es: seq<Entry>, end: End, p: Text)
    requires Holds(m, off, es, end)
    ensures Ahead(m, off, es, 0, end, p, false)
  {
    assert es[0..] == es;
  }

  lemma AheadAtEnd(m: seq<byte>, off: nat, es: seq<Entry>, i: nat, end: End, p: Text)
    requires Ahead(m, off, es, i, end, p, true)
    ensures Find(es, p) == |es| && Failure(end) == -ENOENT
  {
  }

  /** What the header reached next holds, and what that means for the search. */
  lemma Look(m: seq<byte>, off: nat, es: seq<Entry>, i: nat, end: End, p: Text)
    requires Ahead(m, off, es, i, end, p, false)
    ensures i < |es| ==>
      && es[i].off == off && HoldsEntry(m, es[i])
      && (if es[i].name == p then Find(es, p) == i
          else Ahead(m, NextAt(es[i]), es, i + 1, end, p, IsTrailer(es[i])))
    ensures i == |es| ==>
      && Find(es, p) == |es|
      && ((NoHeader(m, off) && Failure(end) == -EINVAL) || (LongName(m, off) && Failure(end) == -EOVERFLOW))
  {
    var rest := es[i..];
    assert i < |es| ==> rest[0] == es[i] && rest[1..] == es[i + 1..];
  }

  /** Reads one header; skips the data behind it when the name is another. */
  method Visit(f: DiskFile, p: Text, h: Header, ghost e: Entry) returns (res: int, same: bool)
    requires f.pos >= 0 && h.Sized() && f.disk != h.bytes && f.disk != h.pathname && e.off == f.pos
    requires f.disk.Length + 3 <= LONG_MAX
    requires HoldsEntry(f.disk[..], e) || NoHeader(f.disk[..], f.pos) || LongName(f.disk[..], f.pos)
    modifies h, h.bytes, h.pathname, f`pos
    ensures f.disk[..] == old(f.disk[..])
    ensures HoldsEntry(f.disk[..], e) ==>
      && res >= 0 && same == (e.name == p) && h.Describes(e) && h.isEnd == IsTrailer(e)
      && f.pos == if same then DataAt(e) else NextAt(e)
    ensures NoHeader(f.disk[..], e.off) ==> res == -9
    ensures LongName(f.disk[..], e.off) ==> res == -6
  {
    hide HoldsEntry, NoHeader, LongName, NameEnds, IsTrailer, NameSize, FileSize, NameBuffer, StringIn, AlignUp4;
    ghost var m := f.disk[..];
    if HoldsEntry(m, e) { HeldSizes(m, e); HeldPlaces(m, e); }
    LongNameSize(m, e.off);
    same := false;
    res := ReadHeader(f, h);
    if res < 0 { return; }
    h.DescribesHeld(m, e);
    same := SameString(h.pathname, p);
    if !same { SkipData(f, h); }
  }

  /** Moves behind the data. */
  method SkipData(f: DiskFile, h: Header)
    requires h.fsize + h.fpad == AlignUp4(h.fsize) && LONG_MIN <= f.pos + SkipOf(h.fsize) <= LONG_MAX
    modifies f`pos
    ensures f.pos == old(f.pos) + SkipOf(h.fsize)
  {
    f.Seek(Int32(h.fsize + h.fpad));
  }

  lemma LongNameSize(m: seq<byte>, off: nat)
    ensures LongName(m, off) ==> !NoHeader(m, off) && NameEnds(m, off) && PATH_MAX < NameSize(m, off)
  {
  }

  /** Where the header of an entry, its data and the next header stand. */
  lemma HeldPlaces(m: seq<byte>, e: Entry)
    requires HoldsEntry(m, e)
    ensures e.off + HSIZE <= |m| && DataAt(e) == e.off + AlignUp4(HSIZE + |e.name| + 1)
    ensures SkipOf(e.size) == AlignUp4(e.size) && NextAt(e) == DataAt(e) + AlignUp4(e.size) <= LONG_MAX
  {
    hide AlignUp4, SkipOf, FieldIs, HasMagic;
    SkipsData(e.size);
  }


  // ---------------------------------------------------------------------------------------------
  // Files in the archive

  class CpioFile {
    const archive: DiskFile
    const foff: nat
    const size: nat
    var pos: nat

    constructor (archive: DiskFile, foff: nat, size: nat)
      ensures this.archive == archive && this.foff == foff && this.size == size && pos == 0
    {
      this.archive, this.foff, this.size, pos := archive, foff, size, 0;
    }

    /** The data of the file. */
    ghost function Data(): seq<byte>
      reads archive, archive.disk
    {
      DataOn(archive.disk[..], foff, size)
    }

    /** Everything the file's position can be added to stays below 2^31. */
    ghost predicate InRange(count: nat)
      reads this, archive, archive.disk
    {
      pos <= |Data()| && pos + count <= LONG_MAX && foff <= LONG_MAX && archive.disk.Length <= LONG_MAX
    }

    /** Returns the next piece of the data and moves behind it. */
    method Read(dst: array<byte>, count: nat) returns (n: nat)
      requires dst != archive.disk && count <= dst.Length && InRange(count)
      modifies this`pos, dst
      ensures var piece := Piece(Data(), old(pos), count);
        && Data() == old(Data()) && n == |piece| && pos == old(pos) + n
        && dst[..n] == piece && dst[n..] == old(dst[n..])
    {
      if count == 0 { return 0; }
      ghost var data, before, start := Data(), dst[..], pos;
      var aoff := pos + foff;
      var clipped := count;
      if pos + count > size { clipped := size - pos; }
      n := archive.Pread(dst, 0, clipped, aoff);
      assert Data() == data;
      ghost var piece := Piece(data, start, count);
      assert n == |piece|;
      assert forall i :: 0 <= i < dst.Length ==> dst[i] == dst[..][i] == if i < n then piece[i] else before[i];
      assert dst[..n] == piece;
      assert dst[n..] == before[n..];
      aoff := aoff + n;
      pos := aoff - foff;
    }

    /** Reads of the given sizes, one behind the other, into one buffer; `all` is what they returned. */
    method ReadAll(dst: array<byte>, counts: seq<nat>) returns (all: seq<byte>)
      requires |Data()| + dst.Length <= LONG_MAX && InRange(0)
      requires dst != archive.disk && forall i :: 0 <= i < |counts| ==> counts[i] <= dst.Length
      modifies this`pos, dst
      ensures all == Pieces(Data(), old(pos), counts) && pos == old(pos) + |all|
    {
      hide Pieces, Piece, Data;
      all := [];
      ghost var data, left := Data(), counts;
      for i := 0 to |counts|
        invariant pos == old(pos) + |all| <= |data| && Data() == data
        invariant |left| == |counts| - i && forall k :: 0 <= k < |left| ==> left[k] == counts[i + k]
        invariant Pieces(data, old(pos), counts) == all + Pieces(data, pos, left)
      {
        NextPiece(data, pos, left);
        Regroup(all, Piece(data, pos, counts[i]), Pieces(data, pos + |Piece(data, pos, counts[i])|, left[1..]));
        var n := Read(dst, counts[i]);
        all := all + dst[..n];
        left := left[1..];
      }
      NoPieces(data, pos);
    }
  }

  lemma NoPieces(data: seq<byte>, pos: nat)
    requires pos <= |data|
    ensures Pieces(data, pos, []) == []
  {
  }

  /** Opens the archive and finds the file; an empty path means the root directory. */
  method OpenPath(disk: array<byte>, path: Text, ghost es: seq<Entry>, ghost end: End)
    returns (res: int, file: CpioFile?)
    requires Holds(disk[..], 0, es, end) && disk.Length + 3 <= LONG_MAX
    ensures var k := Find(es, if path == [] then [0x2e] else path);
      if k < |es| then
        && res == 0 && file != null && fresh(file) && file.archive.disk == disk && file.pos == 0
        && file.foff == DataAt(es[k]) <= LONG_MAX && file.size == es[k].size
      else res == Failure(end)
  {
    hide Holds, HoldsEntry, Find, Failure, IsTrailer, StringIn;
    var p: Text := if path == [] then [0x2e] else path;
    var f := new DiskFile(disk);
    var h := new Header();
    file := null;
    res := FindPath(f, p, h, es, end);
    if res < 0 { return; }
    EntryHeld(disk[..], 0, es, end, res);
    HeldPlaces(disk[..], es[res]);
    file := new CpioFile(f, h.hoff + HSIZE + h.psize + h.ppad, h.fsize);
    res := 0;
  }

  /** A client that opens a file and reads from its start: whatever the sizes of the reads, it gets the data of
      the first entry with the name, up to the sum of the sizes and to the end of the disk. */
  method OpenAndRead(disk: array<byte>, path: Text, dst: array<byte>, counts: seq<nat>,
                     ghost es: seq<Entry>, ghost end: End)
    returns (res: int, all: seq<byte>)
    requires Holds(disk[..], 0, es, end) && dst != disk && disk.Length + dst.Length + 3 <= LONG_MAX
    requires forall i :: 0 <= i < |counts| ==> counts[i] <= dst.Length
    modifies dst
    ensures var k := Find(es, if path == [] then [0x2e] else path);
      if k < |es| then
        var data := DataOn(disk[..], DataAt(es[k]), es[k].size);
        res == 0 && all == data[..Min(Sum(counts), |data|)]
      else res == Failure(end)
  {
    hide Holds, Find, Pieces, DataAt, Sum, Failure;
    var file;
    all := [];
    res, file := OpenPath(disk, path, es, end);
    if res < 0 { return; }
    ghost var data := file.Data();
    all := file.ReadAll(dst, counts);
    PiecesAreData(data, 0, counts);
    assert all == data[..Min(Sum(counts), |data|)];
  }

  lemma {:induction false} EntryHeld(m: seq<byte>, off: nat, es: seq<Entry>, end: End, k: nat)
    requires Holds(m, off, es, end) && k < |es|
    ensures HoldsEntry(m, es[k])
    decreases |es|
  {
    if k > 0 {
      EntryHeld(m, NextAt(es[0]), es[1..], end, k - 1);
    }
  }
}
