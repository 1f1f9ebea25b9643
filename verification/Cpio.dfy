/** Archives in the "New ASCII" format: what their bytes say, entry by entry. */
module Cpio {
  import opened ByteTypes
  import opened Common

  const EOVERFLOW: int := 6
  const EINVAL: int := 9
  const ENOENT: int := 33
  const PATH_MAX: nat := 128
  const LONG_MAX: nat := 0x7fff_ffff
  const LONG_MIN: int := -0x8000_0000

  /** "070701" */
  const MAGIC: seq<byte> := [0x30, 0x37, 0x30, 0x37, 0x30, 0x31]
  /** "TRAILER!!!" */
  const TRAILER: seq<byte> := [0x54, 0x52, 0x41, 0x49, 0x4c, 0x45, 0x52, 0x21, 0x21, 0x21]

  const HSIZE: nat := 110
  const FIELD: nat := 8
  const FILESIZE_AT: nat := 54
  const NAMESIZE_AT: nat := 94

  // ---------------------------------------------------------------------------------------------
  // Numbers and padding

  /** The value of a hexadecimal digit in either case; 16 for any other character. */
  function HexValue(c: byte): (d: nat)
    ensures d <= 16
  {
    if 0x30 <= c <= 0x39 then c - 0x30
    else if 0x61 <= c <= 0x66 then c - 0x61 + 10
    else if 0x41 <= c <= 0x46 then c - 0x41 + 10
    else 16
  }

  predicate IsNumber(field: seq<byte>, base: nat) {
    forall i :: 0 <= i < |field| ==> HexValue(field[i]) < base
  }

  /** Positional value, most significant digit first. */
  function Number(field: seq<byte>, base: nat): nat {
    if field == [] then 0 else Number(field[..|field| - 1], base) * base + HexValue(field[|field| - 1])
  }

  /** A header field taken for a size: anything but a number gives an error code, and is not checked. */
  function SizeField(field: seq<byte>): (size: nat)
    ensures size < TWO32
  {
    if IsNumber(field, 16) then Number(field, 16) % TWO32 else TWO32 - EINVAL
  }

  function AlignUp4(x: nat): (r: nat)
    ensures r % 4 == 0 && x <= r < x + 4
  {
    (x + 3) / 4 * 4
  }

  // ---------------------------------------------------------------------------------------------
  // Headers as they are read

  /** `n` bytes from `off` on, and zeros behind the end of `m`. */
  function Padded(m: seq<byte>, off: nat, n: nat): (r: seq<byte>)
    ensures |r| == n && forall i :: 0 <= i < n ==> r[i] == if off + i < |m| then m[off + i] else 0
  {
    if n == 0 then [] else Padded(m, off, n - 1) + [if off + n - 1 < |m| then m[off + n - 1] else 0]
  }

  function NameSize(m: seq<byte>, off: nat): nat {
    SizeField(Padded(m, off, HSIZE)[NAMESIZE_AT..NAMESIZE_AT + FIELD])
  }

  function FileSize(m: seq<byte>, off: nat): nat {
    SizeField(Padded(m, off, HSIZE)[FILESIZE_AT..FILESIZE_AT + FIELD])
  }

  /** The path buffer behind the header at `off`, for a name that fits. */
  function NameBuffer(m: seq<byte>, off: nat): (r: seq<byte>)
    requires NameSize(m, off) <= PATH_MAX
  {
    Padded(m, off + HSIZE, NameSize(m, off)) + Padded([], 0, PATH_MAX - NameSize(m, off))
  }

  /** The terminated string in a buffer. */
  function StringIn(buf: seq<byte>): (s: Text)
    ensures |s| <= |buf| && buf[..|s|] == s && (|s| < |buf| ==> buf[|s|] == 0)
  {
    if buf == [] || buf[0] == 0 then [] else [buf[0]] + StringIn(buf[1..])
  }

  lemma {:induction false} StringFound(buf: seq<byte>, s: Text)
    requires |s| < |buf| && buf[..|s| + 1] == s + [0]
    ensures StringIn(buf) == s
  {
    assert forall i :: 0 <= i <= |s| ==> buf[i] == (s + [0])[i];
    if s != [] {
      assert buf[1..][..|s|] == s[1..] + [0];
      StringFound(buf[1..], s[1..]);
    }
  }

  /** No header starts here: the archive is over, or the magic number is wrong. */
  predicate NoHeader(m: seq<byte>, off: nat) {
    off >= |m| || !HasMagic(m, off)
  }

  predicate HasMagic(m: seq<byte>, off: nat) {
    off + 6 <= |m| && m[off..off + 6] == MAGIC
  }

  /** How many bytes a read of `count` at `off` gets from a disk of `size` bytes. */
  function Available(size: nat, count: nat, off: nat): nat {
    if off >= size then 0 else Min(count, size - off)
  }

  /** How much of a name of `wanted` bytes at `pos` a loop has read after some turns; each turn asks for the rest, and
      a read at the end of the disk gets nothing. */
  function ReadAfter(size: nat, pos: nat, wanted: nat, turns: nat): (ct: nat)
    ensures ct <= wanted && (ct > 0 ==> pos + ct <= size)
  {
    if turns == 0 then 0
    else
      var ct := ReadAfter(size, pos, wanted, turns - 1);
      ct + Available(size, wanted - ct, pos + ct)
  }

  /** All of the name is on the disk, or there is none. */
  predicate NameOnDisk(size: nat, pos: nat, wanted: nat) {
    wanted == 0 || pos + wanted <= size
  }

  /** Otherwise the loop that reads a name never ends. */
  lemma NameLoopEnds(size: nat, pos: nat, wanted: nat)
    ensures (exists turns :: ReadAfter(size, pos, wanted, turns) == wanted) <==> NameOnDisk(size, pos, wanted)
  {
    assert ReadAfter(size, pos, wanted, 0) == 0;
    if NameOnDisk(size, pos, wanted) {
      assert ReadAfter(size, pos, wanted, 1) == wanted;
    }
  }

  /** Reading the header at `off` comes to an end. */
  predicate NameEnds(m: seq<byte>, off: nat) {
    NameOnDisk(|m|, Min(off + HSIZE, |m|), Min(NameSize(m, off), PATH_MAX))
  }

  /** How far the search moves behind a name to pass data of a given size: both sizes are unsigned, the distance is
      signed. */
  function SkipOf(size: nat): int {
    Int32(AlignUp4(size))
  }

  /** Sizes from 2^31 on move the search backwards, or not at all; all others over the data and its padding. */
  lemma SkipsData(size: nat)
    requires size < TWO32
    ensures SkipOf(size) == AlignUp4(size) <==> AlignUp4(size) <= LONG_MAX
    ensures SkipOf(size) < 0 <==> LONG_MAX < AlignUp4(size) < TWO32
    ensures size > 0 && SkipOf(size) == 0 <==> TWO32 - 3 <= size
  {
  }

  /** A file size that is no number moves it back by eight. */
  lemma BadSizeSkipsBack(field: seq<byte>)
    requires !IsNumber(field, 16)
    ensures SkipOf(SizeField(field)) == -8
  {
  }

  // ---------------------------------------------------------------------------------------------
  // Entries

  /** One archive member: where its header starts, its name, and the size of its data. */
  datatype Entry = Entry(off: nat, name: Text, size: nat)

  function DataAt(e: Entry): nat {
    e.off + AlignUp4(HSIZE + |e.name| + 1)
  }

  function NextAt(e: Entry): nat {
    DataAt(e) + AlignUp4(e.size)
  }

  predicate IsTrailer(e: Entry) {
    e.size == 0 && e.name == TRAILER
  }

  function FieldAt(m: seq<byte>, off: nat, at: nat): seq<byte>
    requires off + HSIZE <= |m| && at + FIELD <= HSIZE
  {
    m[off + at..off + at + FIELD]
  }

  predicate FieldIs(m: seq<byte>, off: nat, at: nat, v: nat)
    requires off + HSIZE <= |m| && at + FIELD <= HSIZE
  {
    IsNumber(FieldAt(m, off, at), 16) && Number(FieldAt(m, off, at), 16) == v <= LONG_MAX
  }

  /** The archive holds entry `e`: its header with both sizes, and its terminated name. The end of the data may be cut
      off, but its place is one a file position can name. */
  predicate HoldsEntry(m: seq<byte>, e: Entry) {
    && e.off + HSIZE <= |m|
    && HasMagic(m, e.off)
    && FieldIs(m, e.off, NAMESIZE_AT, |e.name| + 1)
    && FieldIs(m, e.off, FILESIZE_AT, e.size)
    && |e.name| < PATH_MAX
    && e.off + HSIZE + |e.name| < |m|
    && m[e.off + HSIZE..e.off + HSIZE + |e.name| + 1] == e.name + [0]
    && NextAt(e) <= LONG_MAX
  }

  /** A header whose name does not fit a path buffer, or whose name size is no number. */
  predicate LongName(m: seq<byte>, off: nat) {
    !NoHeader(m, off) && NameEnds(m, off) && PATH_MAX < NameSize(m, off)
  }

  /** The data of an entry, as far as the disk has it. */
  function DataOn(m: seq<byte>, at: nat, size: nat): (data: seq<byte>)
    ensures |data| == Available(|m|, size, at)
  {
    if at >= |m| then [] else m[at..at + Min(size, |m| - at)]
  }

  datatype End = AtTrailer | AtNoHeader | AtLongName

  /** From `off` on the archive holds the entries `es`, one behind the other, up to the trailer, which is the
      last of them, or up to something that is not an entry. */
  predicate Holds(m: seq<byte>, off: nat, es: seq<Entry>, end: End)
    decreases |es|
  {
    if es == [] then
      match end
      case AtTrailer => false
      case AtNoHeader => NoHeader(m, off)
      case AtLongName => LongName(m, off)
    else
      && es[0].off == off
      && HoldsEntry(m, es[0])
      && if IsTrailer(es[0]) then |es| == 1 && end == AtTrailer else Holds(m, NextAt(es[0]), es[1..], end)
  }

  /** Index of the first entry with a name; their number when there is none. */
  function Find(es: seq<Entry>, p: Text): (k: nat)
    ensures k <= |es|
    ensures k < |es| ==> es[k].name == p
    ensures forall j :: 0 <= j < k ==> es[j].name != p
  {
    if es == [] || es[0].name == p then 0 else 1 + Find(es[1..], p)
  }

  function Failure(end: End): (res: int)
    ensures res < 0
  {
    match end
    case AtTrailer => -ENOENT
    case AtNoHeader => -EINVAL
    case AtLongName => -EOVERFLOW
  }

  lemma AlignedEntry(e: Entry)
    requires e.off % 4 == 0
    ensures DataAt(e) % 4 == 0 && NextAt(e) % 4 == 0 && e.off < DataAt(e) <= NextAt(e)
  {
  }

  /** Every header, and all data, starts on a multiple of four, and entries do not overlap. */
  lemma {:induction false} Aligned(m: seq<byte>, off: nat, es: seq<Entry>, end: End, k: nat)
    requires Holds(m, off, es, end) && off % 4 == 0 && k < |es|
    ensures es[k].off % 4 == 0 && DataAt(es[k]) % 4 == 0 && es[k].off >= off
    ensures HoldsEntry(m, es[k])
    ensures k + 1 < |es| ==> es[k + 1].off == NextAt(es[k]) >= DataAt(es[k]) + es[k].size
    decreases |es|
  {
    AlignedEntry(es[0]);
    hide HoldsEntry, DataAt, NextAt, IsTrailer;
    if k > 0 {
      Aligned(m, NextAt(es[0]), es[1..], end, k - 1);
    } else {
      NextBehindData(es[0]);
    }
  }

  lemma NextBehindData(e: Entry)
    ensures NextAt(e) >= DataAt(e) + e.size
  {
  }

  lemma FieldPadded(m: seq<byte>, off: nat, at: nat)
    requires off + HSIZE <= |m| && at + FIELD <= HSIZE
    ensures Padded(m, off, HSIZE)[at..at + FIELD] == FieldAt(m, off, at)
  {
    var a, b := Padded(m, off, HSIZE)[at..at + FIELD], FieldAt(m, off, at);
    assert |a| == |b| && forall i :: 0 <= i < FIELD ==> a[i] == m[off + at + i] == b[i];
  }

  /** What the header of an entry gives for its sizes. */
  lemma HeldSizes(m: seq<byte>, e: Entry)
    requires HoldsEntry(m, e)
    ensures NameSize(m, e.off) == |e.name| + 1 <= PATH_MAX && FileSize(m, e.off) == e.size
    ensures NameEnds(m, e.off) && !NoHeader(m, e.off) && !LongName(m, e.off)
  {
    hide AlignUp4, SizeField, Padded;
    FieldPadded(m, e.off, NAMESIZE_AT);
    FieldPadded(m, e.off, FILESIZE_AT);
    SizeHeld(FieldAt(m, e.off, NAMESIZE_AT));
    SizeHeld(FieldAt(m, e.off, FILESIZE_AT));
    hide Number, IsNumber;
  }

  lemma SizeHeld(field: seq<byte>)
    ensures IsNumber(field, 16) && Number(field, 16) < TWO32 ==> SizeField(field) == Number(field, 16)
  {
    hide Number, IsNumber;
  }

  lemma HeldName(m: seq<byte>, e: Entry)
    requires HoldsEntry(m, e)
    ensures NameSize(m, e.off) == |e.name| + 1 <= PATH_MAX
    ensures NameBuffer(m, e.off)[..|e.name| + 1] == e.name + [0] && StringIn(NameBuffer(m, e.off)) == e.name
  {
    HeldSizes(m, e);
    hide NameSize, FieldIs, HasMagic;
    var a, b := m[e.off + HSIZE..e.off + HSIZE + |e.name| + 1], e.name + [0];
    assert forall i :: 0 <= i <= |e.name| ==> m[e.off + HSIZE + i] == a[i] == b[i];
    assert NameBuffer(m, e.off)[..|e.name| + 1] == b;
    StringFound(NameBuffer(m, e.off), e.name);
  }

  /** An archive is read in one way: the entries and the end are determined by its bytes. */
  lemma {:induction false} Unique(m: seq<byte>, off: nat, es: seq<Entry>, end: End, fs: seq<Entry>, end': End)
    requires Holds(m, off, es, end) && Holds(m, off, fs, end')
    ensures es == fs && end == end'
    decreases |es|
  {
    if es != [] { HeldSizes(m, es[0]); }
    if fs != [] { HeldSizes(m, fs[0]); }
    assert !(NoHeader(m, off) && LongName(m, off));
    hide NoHeader, LongName, IsTrailer, NextAt;
    if es != [] && fs != [] {
      SameEntry(m, es[0], fs[0]);
      hide HoldsEntry;
      if !IsTrailer(es[0]) {
        Unique(m, NextAt(es[0]), es[1..], end, fs[1..], end');
      }
    }
  }

  lemma SameEntry(m: seq<byte>, e: Entry, f: Entry)
    requires HoldsEntry(m, e) && HoldsEntry(m, f) && e.off == f.off
    ensures e == f
  {
    assert (e.name + [0])[..|e.name|] == e.name && (f.name + [0])[..|f.name|] == f.name;
  }

  // ---------------------------------------------------------------------------------------------
  // Reading a member piece by piece

  /** What a read of `count` bytes at `pos` returns. */
  function Piece(data: seq<byte>, pos: nat, count: nat): (r: seq<byte>)
    requires pos <= |data|
    ensures |r| == Min(count, |data| - pos)
  {
    data[pos..pos + Min(count, |data| - pos)]
  }

  /** What a sequence of reads returns, from `pos` on. */
  function Pieces(data: seq<byte>, pos: nat, counts: seq<nat>): seq<byte>
    requires pos <= |data|
    decreases |counts|
  {
    if counts == [] then []
    else Piece(data, pos, counts[0]) + Pieces(data, pos + |Piece(data, pos, counts[0])|, counts[1..])
  }

  function Sum(counts: seq<nat>): nat {
    if counts == [] then 0 else counts[0] + Sum(counts[1..])
  }

  lemma NextPiece(data: seq<byte>, pos: nat, counts: seq<nat>)
    requires pos <= |data| && counts != []
    ensures Pieces(data, pos, counts)
         == Piece(data, pos, counts[0]) + Pieces(data, pos + |Piece(data, pos, counts[0])|, counts[1..])
  {
  }

  lemma PieceIs(data: seq<byte>, pos: nat, count: nat, next: nat)
    requires pos <= |data| && next == pos + Min(count, |data| - pos)
    ensures Piece(data, pos, count) == data[pos..next]
  {
  }

  lemma Glue(data: seq<byte>, a: nat, b: nat, c: nat)
    requires a <= b <= c <= |data|
    ensures data[a..b] + data[b..c] == data[a..c]
  {
  }

  /** Reads of any sizes return consecutive pieces: together the data up to where they got, and no more. */
  lemma {:induction false} PiecesAreData(data: seq<byte>, pos: nat, counts: seq<nat>)
    requires pos <= |data|
    ensures Pieces(data, pos, counts) == data[pos..pos + Min(Sum(counts), |data| - pos)]
    decreases |counts|
  {
    hide Piece;
    if counts != [] {
      var next := pos + Min(counts[0], |data| - pos);
      PieceIs(data, pos, counts[0], next);
      NextPiece(data, pos, counts);
      hide Pieces;
      PiecesAreData(data, next, counts[1..]);
      Glue(data, pos, next, next + Min(Sum(counts[1..]), |data| - next));
    }
  }
}
