/** Archives as a writer lays them out, byte by byte, and their way back through the reader. */
module CpioArchive {
  import opened ByteTypes
  import opened Common
  import opened Cpio
  import opened CpioReader

  /** A file to be archived: the fields of its header that the search does not look at are whatever they are. */
  datatype File = File(name: Text, data: seq<byte>, before: seq<byte>, between: seq<byte>, behind: seq<byte>)

  function HexByte(d: nat): byte
    requires d < 16
  {
    if d < 10 then 48 + d else 87 + d
  }

  /** Eight hexadecimal digits. */
  function Hex8(v: nat): (r: seq<byte>)
    ensures |r| == 8
  {
    [HexByte(v / 0x1000_0000 % 16), HexByte(v / 0x100_0000 % 16), HexByte(v / 0x10_0000 % 16),
     HexByte(v / 0x1_0000 % 16), HexByte(v / 0x1000 % 16), HexByte(v / 0x100 % 16), HexByte(v / 0x10 % 16),
     HexByte(v % 16)]
  }

  /** Zeros up to the next multiple of four. */
  function Padding(n: nat): (r: seq<byte>)
    ensures |r| < 4 && (n + |r|) % 4 == 0
  {
    if n % 4 == 0 then [] else if n % 4 == 1 then [0, 0, 0] else if n % 4 == 2 then [0, 0] else [0]
  }

  /** "070701", six fields, the size of the data, four fields, the size of the name with its null, one field. */
  function HeaderOf(f: File): seq<byte> {
    [48, 55, 48, 55, 48, 49] + f.before + Hex8(|f.data|) + f.between + Hex8(|f.name| + 1) + f.behind
  }

  function NamePart(f: File): seq<byte> {
    f.name + [0] + Padding(110 + |f.name| + 1)
  }

  function Member(f: File): seq<byte> {
    HeaderOf(f) + NamePart(f) + (f.data + Padding(|f.data|))
  }

  predicate Archivable(f: File) {
    |f.before| == 48 && |f.between| == 32 && |f.behind| == 8 && |f.name| < 128 && |f.data| < 0x8000_0000
  }

  lemma NumberStep(field: seq<byte>, k: nat)
    requires k < |field|
    ensures Number(field[..k + 1], 16) == Number(field[..k], 16) * 16 + HexValue(field[k])
  {
    assert field[..k + 1][..k] == field[..k];
  }

  /** What the reader makes of eight digits, in either case. */
  lemma FieldValue(field: seq<byte>, d: seq<nat>)
    requires |field| == |d| == 8
    requires forall i :: 0 <= i < 8 ==>
      (48 <= field[i] <= 57 && d[i] == field[i] - 48) || (97 <= field[i] <= 102 && d[i] == field[i] - 87)
      || (65 <= field[i] <= 70 && d[i] == field[i] - 55)
    ensures IsNumber(field, 16)
    ensures Number(field, 16) ==
      d[0] * 0x1000_0000 + d[1] * 0x100_0000 + d[2] * 0x10_0000 + d[3] * 0x1_0000
      + d[4] * 0x1000 + d[5] * 0x100 + d[6] * 0x10 + d[7]
  {
    assert IsNumber(field, 16) && forall i :: 0 <= i < 8 ==> HexValue(field[i]) == d[i];
    hide HexValue, IsNumber;
    FourDigits(field, 0, 0, d[0], d[1], d[2], d[3]);
    FourDigits(field, 4, Number(field[..4], 16), d[4], d[5], d[6], d[7]);
    assert field[..8] == field && field[..0] == [];
  }

  lemma FourDigits(field: seq<byte>, k: nat, before: nat, d0: nat, d1: nat, d2: nat, d3: nat)
    requires k + 4 <= |field| && before == Number(field[..k], 16)
    requires HexValue(field[k]) == d0 && HexValue(field[k + 1]) == d1
    requires HexValue(field[k + 2]) == d2 && HexValue(field[k + 3]) == d3
    ensures Number(field[..k + 4], 16) == before * 0x1_0000 + d0 * 0x1000 + d1 * 0x100 + d2 * 0x10 + d3
  {
    hide Number, HexValue;
    NumberStep(field, k);
    NumberStep(field, k + 1);
    NumberStep(field, k + 2);
    NumberStep(field, k + 3);
  }

  /** The eight digits of a number. */
  lemma DigitsOfWord(v: nat)
    requires v < 0x1_0000_0000
    ensures v ==
      v / 0x1000_0000 % 16 * 0x1000_0000 + v / 0x100_0000 % 16 * 0x100_0000 + v / 0x10_0000 % 16 * 0x10_0000
      + v / 0x1_0000 % 16 * 0x1_0000 + v / 0x1000 % 16 * 0x1000 + v / 0x100 % 16 * 0x100 + v / 0x10 % 16 * 0x10 + v % 16
  {
    var q1 := v / 0x10;
    var q2 := q1 / 0x10;
    var q3 := q2 / 0x10;
    var q4 := q3 / 0x10;
    var q5 := q4 / 0x10;
    var q6 := q5 / 0x10;
    var q7 := q6 / 0x10;
    assert q2 == v / 0x100 && q3 == v / 0x1000 && q4 == v / 0x1_0000;
    assert q5 == v / 0x10_0000 && q6 == v / 0x100_0000 && q7 == v / 0x1000_0000;
    assert q7 < 16;
  }

  lemma Hex8Value(v: nat)
    requires v < 0x1_0000_0000
    ensures IsNumber(Hex8(v), 16) && Number(Hex8(v), 16) == v
  {
    var d := [v / 0x1000_0000 % 16, v / 0x100_0000 % 16, v / 0x10_0000 % 16, v / 0x1_0000 % 16,
              v / 0x1000 % 16, v / 0x100 % 16, v / 0x10 % 16, v % 16];
    var field := Hex8(v);
    assert forall i :: 0 <= i < 8 ==> d[i] < 16 && field[i] == HexByte(d[i]);
    hide Hex8;
    FieldValue(field, d);
    DigitsOfWord(v);
  }

  // ---------------------------------------------------------------------------------------------
  // One member

  /** `x` stands in `m` from `off` on. */
  ghost predicate In(m: seq<byte>, off: nat, x: seq<byte>) {
    off + |x| <= |m| && forall i :: 0 <= i < |x| ==> m[off + i] == x[i]
  }

  lemma InConcat(m: seq<byte>, off: nat, x: seq<byte>, y: seq<byte>)
    requires In(m, off, x + y)
    ensures In(m, off, x) && In(m, off + |x|, y)
  {
    assert forall i :: 0 <= i < |x| ==> (x + y)[i] == x[i];
    forall i | 0 <= i < |y| ensures m[off + |x| + i] == y[i] {
      assert (x + y)[|x| + i] == y[i];
    }
  }

  lemma InSlice(m: seq<byte>, off: nat, x: seq<byte>)
    requires In(m, off, x)
    ensures m[off..off + |x|] == x
  {
  }

  lemma HeaderParts(m: seq<byte>, off: nat, f: File)
    requires Archivable(f) && In(m, off, HeaderOf(f))
    ensures off + 110 <= |m| && m[off..off + 6] == [48, 55, 48, 55, 48, 49]
    ensures m[off + 54..off + 62] == Hex8(|f.data|) && m[off + 94..off + 102] == Hex8(|f.name| + 1)
  {
    var magic: seq<byte> := [48, 55, 48, 55, 48, 49];
    var a := magic + f.before;
    var b := a + Hex8(|f.data|);
    var c := b + f.between;
    var d := c + Hex8(|f.name| + 1);
    hide In, Hex8;
    InConcat(m, off, d, f.behind);
    InConcat(m, off, c, Hex8(|f.name| + 1));
    InConcat(m, off, b, f.between);
    InConcat(m, off, a, Hex8(|f.data|));
    InConcat(m, off, magic, f.before);
    InSlice(m, off, magic);
    InSlice(m, off + 54, Hex8(|f.data|));
    InSlice(m, off + 94, Hex8(|f.name| + 1));
    InEnds(m, off, d + f.behind);
  }

  lemma InEnds(m: seq<byte>, off: nat, x: seq<byte>)
    requires In(m, off, x)
    ensures off + |x| <= |m|
  {
  }

  lemma PaddingAligns(n: nat)
    ensures n + |Padding(n)| == AlignUp4(n)
  {
  }

  function EntryOf(off: nat, f: File): Entry {
    Entry(off, f.name, |f.data|)
  }

  lemma MemberPlaces(off: nat, f: File)
    requires Archivable(f)
    ensures DataAt(EntryOf(off, f)) == off + |HeaderOf(f)| + |NamePart(f)|
    ensures NextAt(EntryOf(off, f)) == off + |Member(f)|
  {
    PaddingAligns(110 + |f.name| + 1);
    PaddingAligns(|f.data|);
    hide AlignUp4, Padding, Hex8;
  }

  /** A member as it is written is an entry as it is read, with its data. */
  lemma MemberHeld(m: seq<byte>, off: nat, f: File)
    requires Archivable(f) && In(m, off, Member(f)) && off + |Member(f)| < 0x8000_0000
    ensures HoldsEntry(m, EntryOf(off, f)) && NextAt(EntryOf(off, f)) == off + |Member(f)|
    ensures DataOn(m, DataAt(EntryOf(off, f)), |f.data|) == f.data
  {
    hide In, HeaderOf, Padding, Hex8, AlignUp4, Number, IsNumber, DataOn;
    MemberPlaces(off, f);
    InConcat(m, off, HeaderOf(f) + NamePart(f), f.data + Padding(|f.data|));
    InConcat(m, off, HeaderOf(f), NamePart(f));
    HeaderParts(m, off, f);
    HeaderLength(f);
    Hex8Value(|f.data|);
    Hex8Value(|f.name| + 1);
    InConcat(m, off + 110, f.name + [0], Padding(110 + |f.name| + 1));
    InSlice(m, off + 110, f.name + [0]);
    InEnds(m, off + 110, f.name + [0]);
    var at := DataAt(EntryOf(off, f));
    InConcat(m, at, f.data, Padding(|f.data|));
    DataIn(m, at, f.data);
  }

  lemma HeaderLength(f: File)
    requires Archivable(f)
    ensures |HeaderOf(f)| == 110
  {
  }

  lemma DataIn(m: seq<byte>, at: nat, data: seq<byte>)
    requires In(m, at, data)
    ensures DataOn(m, at, |data|) == data
  {
  }

  // ---------------------------------------------------------------------------------------------
  // Whole archives

  function Archive(files: seq<File>): seq<byte> {
    if files == [] then [] else Member(files[0]) + Archive(files[1..])
  }

  function EntriesOf(off: nat, files: seq<File>): (es: seq<Entry>)
    ensures |es| == |files|
    ensures forall k :: 0 <= k < |files| ==> es[k].name == files[k].name && es[k].size == |files[k].data|
    decreases |files|
  {
    if files == [] then [] else [EntryOf(off, files[0])] + EntriesOf(off + |Member(files[0])|, files[1..])
  }

  /** Files and, behind them and nowhere else, the end marker, called "TRAILER!!!" and without data. */
  predicate Ended(files: seq<File>) {
    && files != []
    && (forall k :: 0 <= k < |files| ==> Archivable(files[k]))
    && forall k :: 0 <= k < |files| ==>
         (files[k].data == [] && files[k].name == [84, 82, 65, 73, 76, 69, 82, 33, 33, 33] <==> k == |files| - 1)
  }

  lemma HoldsFirst(m: seq<byte>, e: Entry, es: seq<Entry>, end: End)
    requires HoldsEntry(m, e)
    requires if IsTrailer(e) then es == [] && end == AtTrailer else Holds(m, NextAt(e), es, end)
    ensures Holds(m, e.off, [e] + es, end)
  {
    assert ([e] + es)[1..] == es;
  }

  /** The data of the entries is that of the files. */
  ghost predicate DataHeld(m: seq<byte>, es: seq<Entry>, files: seq<File>) {
    |es| == |files| && forall k :: 0 <= k < |files| ==> DataOn(m, DataAt(es[k]), |files[k].data|) == files[k].data
  }

  lemma EndedRest(files: seq<File>)
    requires Ended(files)
    ensures files != [] && (|files| > 1 ==> Ended(files[1..]))
    ensures Archivable(files[0]) && (IsTrailer(EntryOf(0, files[0])) <==> |files| == 1)
  {
  }

  /** An archive as it is written holds its files as they are read. */
  lemma {:induction false} ArchiveHeld(m: seq<byte>, off: nat, files: seq<File>)
    requires Ended(files) && In(m, off, Archive(files)) && off + |Archive(files)| < 0x8000_0000
    ensures Holds(m, off, EntriesOf(off, files), AtTrailer) && DataHeld(m, EntriesOf(off, files), files)
    decreases |files|
  {
    hide In, Member, HoldsEntry, DataAt, NextAt, Archivable, DataOn, Ended, Holds;
    EndedRest(files);
    var f, rest := files[0], files[1..];
    var e, next := EntryOf(off, f), off + |Member(f)|;
    InConcat(m, off, Member(f), Archive(rest));
    MemberHeld(m, off, f);
    var es := EntriesOf(next, rest);
    if rest != [] {
      ArchiveHeld(m, next, rest);
    }
    HoldsFirst(m, e, es, AtTrailer);
    assert files == [f] + rest;
  }

  /** The entry a search for a name comes to is that of the first file with the name. */
  lemma FindFile(m: seq<byte>, es: seq<Entry>, files: seq<File>, name: Text)
    requires es == EntriesOf(0, files) && DataHeld(m, es, files)
    ensures Find(es, name) < |files| ==>
      var k := Find(es, name);
      && files[k].name == name && (forall j :: 0 <= j < k ==> files[j].name != name)
      && DataOn(m, DataAt(es[k]), es[k].size) == files[k].data
    ensures Find(es, name) == |files| ==> forall k :: 0 <= k < |files| ==> files[k].name != name
  {
    hide DataOn, DataAt, EntriesOf;
  }

  /** A client that opens a file in such an archive and reads it in pieces of any sizes gets what was put in, from the
      first file with the name; without one it gets -33. */
  method ReadBack(disk: array<byte>, path: Text, dst: array<byte>, counts: seq<nat>, ghost files: seq<File>)
    returns (res: int, all: seq<byte>)
    requires Ended(files) && In(disk[..], 0, Archive(files))
    requires dst != disk && disk.Length + dst.Length + 3 < 0x8000_0000
    requires forall i :: 0 <= i < |counts| ==> counts[i] <= dst.Length
    modifies dst
    ensures var name := if path == [] then [46] else path;
      && (forall k ::
            0 <= k < |files| && files[k].name == name && (forall j :: 0 <= j < k ==> files[j].name != name) ==>
              res == 0 && all == files[k].data[..Min(Sum(counts), |files[k].data|)])
      && ((forall k :: 0 <= k < |files| ==> files[k].name != name) ==> res == -33)
  {
    hide Archive, Holds, Ended, DataOn, Sum, Find, In, EntriesOf, DataHeld;
    ghost var es, name := EntriesOf(0, files), if path == [] then [46] else path;
    InEnds(disk[..], 0, Archive(files));
    ArchiveHeld(disk[..], 0, files);
    FindFile(disk[..], es, files, name);
    res, all := OpenAndRead(disk, path, dst, counts, es, AtTrailer);
  }
}
