/** Page map entries and the level table of 32-bit paging (two levels below CR3). */
module PageEntry {
  import opened Common

  const ENOMEM: int := 5
  const PAGESZ: nat := 4096
  const ENTRIES: nat := 1024
  const VPAGES: nat := 0x10_0000

  type Word = n: nat | n < 0x1_0000_0000
  type Frame = n: nat | n < 0x10_0000
  type Attr = bv12

  /** A 32-bit `pme_t`: bits 12..31 are the frame number, bits 0..11 the attributes. */
  datatype Pme = Pme(frame: Frame, attr: Attr)

  const EMPTY: Pme := Pme(0, 0)
  const PRESENT: Attr := 1
  /** The write and user bits. */
  const RIGHTS: Attr := 6
  /** Only PWT and PCD exist in CR3. */
  const ROOT_FLAGS: Attr := 0x18

  function SetFlags(e: Pme, flags: Attr, lvl: nat): Pme {
    e.(attr := e.attr | (if lvl == 0 then flags & ROOT_FLAGS else flags))
  }

  function Pack(paddr: Word, flags: Attr, lvl: nat): Pme
    requires paddr % PAGESZ == 0
  {
    SetFlags(Pme(paddr / PAGESZ, 0), flags, lvl)
  }

  function Paddr(e: Pme): Word {
    e.frame * PAGESZ
  }

  predicate HasPresentBit(e: Pme) {
    e.attr & PRESENT != 0
  }

  predicate IsPresent(e: Pme, lvl: nat) {
    if lvl == 0 then e != EMPTY else HasPresentBit(e)
  }

  function ClearPresent(e: Pme): Pme {
    e.(attr := e.attr & !PRESENT)
  }

  /** An entry with none but the flags that exist in CR3. */
  predicate PlainRoot(e: Pme) {
    e.attr & !ROOT_FLAGS == 0
  }

  lemma PlainRootFlags(e: Pme, flags: Attr)
    requires PlainRoot(e)
    ensures PlainRoot(SetFlags(e, flags, 0)) && ClearPresent(e) == e
  {
    assert e.attr & !PRESENT == e.attr;
  }

  lemma PackedEntry(paddr: Word, flags: Attr)
    requires paddr % PAGESZ == 0
    ensures PlainRoot(Pack(paddr, flags, 0)) && HasPresentBit(Pack(paddr, flags | PRESENT, 1))
  {
  }

  predicate RightsWithin(e: Pme, dir: Pme) {
    e.attr & dir.attr & RIGHTS == e.attr & RIGHTS
  }

  /** More flags in the directory entry take no right away. */
  lemma RightsGrow(e: Pme, dir: Pme, flags: Attr, lvl: nat)
    requires RightsWithin(e, dir)
    ensures RightsWithin(e, SetFlags(dir, flags, lvl))
  {
  }

  /** Adding flags keeps the frame and what was present. */
  lemma SetFlagsKeeps(e: Pme, flags: Attr, lvl: nat)
    ensures SetFlags(e, flags, lvl).frame == e.frame && (IsPresent(e, lvl) ==> IsPresent(SetFlags(e, flags, lvl), lvl))
  {
  }

  function AlignDown(x: Word): Word {
    x - x % PAGESZ
  }

  /** Wraps to 0 for the last partial page below 2^32. */
  function AlignUp(x: Word): Word {
    AlignDown((x + (PAGESZ - 1)) % TWO32)
  }

  datatype PmLvl = PmLvl(idxBits: nat, isPage: bool)

  const LVLS: seq<PmLvl> := [PmLvl(0, false), PmLvl(10, false), PmLvl(10, false), PmLvl(12, true)]

  /** `pme_coversz`, in 32-bit arithmetic. */
  function Coversz(lvl: nat): Word
    requires lvl < 4
    decreases 4 - lvl
  {
    if LVLS[lvl].isPage then Pow2(LVLS[lvl].idxBits) % TWO32
    else (Coversz(lvl + 1) * Pow2(LVLS[lvl].idxBits)) % TWO32
  }

  lemma Pow2Values()
    ensures Pow2(0) == 1 && Pow2(10) == ENTRIES && Pow2(12) == PAGESZ
  {
    assert Pow2(5) == 32;
    assert Pow2(10) == 32 * Pow2(5);
    assert Pow2(12) == 4 * Pow2(10);
  }

  /** An absent leaf counts as a whole table of pages, an absent directory entry as none at all. */
  lemma CoverszValues()
    ensures Coversz(3) == PAGESZ
    ensures Coversz(2) == ENTRIES * PAGESZ
    ensures Coversz(1) == 0 && Coversz(0) == 0
  {
    Pow2Values();
    assert Coversz(3) == PAGESZ;
    assert Coversz(2) == ENTRIES * PAGESZ;
    assert Coversz(1) == (ENTRIES * PAGESZ * ENTRIES) % TWO32 == 0;
  }
}
