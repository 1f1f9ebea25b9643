/** How many table pages a call of addrspc_map needs, and when there are enough of them. */
module PageRoom {
  import opened Common
  import opened PageEntry
  import opened PageState
  import opened PageSteps
  import opened UnmapSteps
  import opened PageTheorems

  /** The pages of the pool that hold no table. */
  ghost function Free(s: State): set<nat> {
    set k: nat | k < PHYSPAGES_MAX && !Used(s, k)
  }

  /** Some of `n` pages from `g` on fall into directory slot `i`. */
  predicate Touches(g: nat, n: nat, i: nat) {
    n > 0 && g / ENTRIES <= i <= (g + n - 1) / ENTRIES
  }

  /** The slots they fall into that lead to no table. */
  ghost function Missing(s: State, r: nat, g: nat, n: nat): set<nat>
    requires |s.mem| >= ROOTS && ROOTS + r < |s.mem|
  {
    set i: nat | i < ENTRIES && Touches(g, n, i) && !HasPresentBit(Pde(s, r, i))
  }

  /** The tables that mapping `n` pages from `g` on takes: a directory, also for no pages at all, and a page table
      for every slot that has none. */
  ghost function Needed(s: State, r: nat, g: nat, n: nat): nat
    requires |s.mem| >= ROOTS && ROOTS + r < |s.mem|
  {
    (if s.mem[ROOTS + r] == EMPTY then 1 else 0) + |Missing(s, r, g, n)|
  }

  // ---------------------------------------------------------------------------------------------
  // The tables that a call has made

  ghost function Made(s: State, s': State): set<nat> {
    set k: nat | k < PHYSPAGES_MAX && Used(s', k) && !Used(s, k)
  }

  /** A slot whose table is as old as the first map has led to it since then. */
  lemma OldSlot(s: State, s': State, r: nat, i: nat)
    requires Inv(s) && Inv(s') && Grew(s, s') && r in s.live && i < ENTRIES
    requires HasPresentBit(Pde(s', r, i)) && Used(s, Idx(Pde(s', r, i)))
    ensures HasPresentBit(Pde(s, r, i))
  {
    hide RightsCovered, RootsPlain, Linked;
    TableOf(s', r, i);
    var b := DirSlot(s', r, i);
    assert LinksTo(s, b, Idx(Pde(s', r, i))) && Lvl(s, b) == 1;
    Level1Slot(s, b);
    SamePlace(s, s', b);
    DirSlotPlace(s', r, i);
  }

  /** A table behind a slot that had none is new. */
  lemma SlotTableMade(s: State, s': State, r: nat, i: nat)
    requires Inv(s) && Inv(s') && Grew(s, s') && r in s.live && i < ENTRIES
    requires !HasPresentBit(Pde(s, r, i)) && HasPresentBit(Pde(s', r, i))
    ensures Idx(Pde(s', r, i)) in Made(s, s') && s'.kind[Idx(Pde(s', r, i))] == 2
  {
    hide RightsCovered, RootsPlain, Linked, Owned;
    TableOf(s', r, i);
    if Used(s, Idx(Pde(s', r, i))) {
      OldSlot(s, s', r, i);
      assert false;
    }
  }

  /** A page whose slot led to a table before still has that table. */
  lemma OldTable(s: State, s': State, r: nat, p: nat)
    requires Inv(s) && Inv(s') && Grew(s, s') && r in s.live && p < VPAGES
    requires HasPresentBit(Pde(s, r, p / ENTRIES)) && LeafAddr(s', r, p) >= 0
    ensures Used(s, LeafAddr(s', r, p) / ENTRIES)
  {
    PageSplit(p);
    TableOf(s, r, p / ENTRIES);
    SameTable(s, s', s', r, p);
  }

  /** A new page table serves a slot of the mapped pages that had none. */
  lemma MadeForSlot(s: State, s': State, r: nat, g: nat, m: nat, paddr: Word, flags: Attr, k: nat) returns (i: nat)
    requires Inv(s) && Inv(s') && NoEmptyTables(s') && Grew(s, s') && r in s.live && paddr % PAGESZ == 0
    requires RangeMapped(s, s', r, g, m, paddr, flags) && k in Made(s, s') && s'.kind[k] == 2
    ensures i in Missing(s, r, g, m) && HasPresentBit(Pde(s', r, i)) && Idx(Pde(s', r, i)) == k
  {
    hide Owned, Linked, RightsCovered, RootsPlain, LeafFor;
    var r', p := TableHasPage(s', k);
    LeafSlot(s', r', p);
    if HasPresentBit(Pde(s, r', p / ENTRIES)) {
      OldTable(s, s', r', p);
      assert false;
    }
    assert Walk(s, r', p) == None;
    i := p / ENTRIES;
  }

  /** The tables behind the missing slots. */
  ghost function TablesOf(s': State, r: nat, slots: set<nat>): (f: map<nat, int>)
    requires |s'.mem| >= ROOTS && ROOTS + r < |s'.mem|
    ensures f.Keys == set i | i in slots && i < ENTRIES
  {
    map i | i in slots && i < ENTRIES :: Idx(Pde(s', r, i))
  }

  lemma {:induction false} InjectionSize(f: map<nat, int>)
    requires forall i, j :: i in f && j in f && f[i] == f[j] ==> i == j
    ensures |f.Values| == |f.Keys|
    decreases |f|
  {
    if f != map[] {
      var i :| i in f;
      var g := f - {i};
      InjectionSize(g);
      forall v | v in f.Values ensures v in g.Values + {f[i]} {
        var j :| j in f && f[j] == v;
        assert j == i || g[j] == v;
      }
      assert f[i] !in g.Values;
      assert f.Values == g.Values + {f[i]};
      assert f.Keys == g.Keys + {i};
    }
  }

  /** All slots of mapped pages lead to tables. */
  lemma SlotsPresent(s: State, s': State, r: nat, g: nat, m: nat, paddr: Word, flags: Attr, i: nat)
    requires Inv(s) && Inv(s') && Grew(s, s') && r in s.live && paddr % PAGESZ == 0 && g + m <= VPAGES
    requires RangeMapped(s, s', r, g, m, paddr, flags) && i < ENTRIES && Touches(g, m, i)
    ensures HasPresentBit(Pde(s', r, i))
  {
    hide Inv, LeafFor;
    var p := if i == g / ENTRIES then g else i * ENTRIES;
    assert g <= p < g + m && p / ENTRIES == i;
    assert Walk(s', r, p).Some?;
  }

  /** Different slots lead to different tables. */
  lemma SlotOfTable(s: State, r: nat, i: nat, j: nat)
    requires Inv(s) && r in s.live && i < ENTRIES && j < ENTRIES
    requires HasPresentBit(Pde(s, r, i)) && HasPresentBit(Pde(s, r, j)) && Idx(Pde(s, r, i)) == Idx(Pde(s, r, j))
    ensures i == j
  {
    TableOf(s, r, i);
    TableOf(s, r, j);
    DirSlotPlace(s, r, i);
    DirSlotPlace(s, r, j);
  }

  /** A space keeps the directory it has. */
  lemma OldDirectory(s: State, s': State, r: nat)
    requires Inv(s) && Inv(s') && Grew(s, s') && r in s.live && s.mem[ROOTS + r] != EMPTY
    ensures s'.mem[ROOTS + r] != EMPTY && Idx(s'.mem[ROOTS + r]) == Idx(s.mem[ROOTS + r])
    ensures Used(s, Idx(s.mem[ROOTS + r]))
  {
    DirOf(s, r);
    assert LinksTo(s', ROOTS + r, Idx(s.mem[ROOTS + r]));
  }

  /** A new directory is that of the space mapped into, which had none. */
  lemma MadeDirectory(s: State, s': State, r: nat, k: nat)
    requires Inv(s) && Inv(s') && Grew(s, s') && RootsKept(s, s', ROOTS + r) && r in s.live
    requires k in Made(s, s') && s'.kind[k] != 2
    ensures s.mem[ROOTS + r] == EMPTY && s'.mem[ROOTS + r] != EMPTY && Idx(s'.mem[ROOTS + r]) == k
  {
    hide RightsCovered, RootsPlain;
    var e := s'.parent[k];
    assert LinksTo(s', e, k) && Lvl(s', e) == 0;
    RootLevel(s', e);
    hide Inv;
    var space: nat := e - ROOTS;
    if s.mem[e] != EMPTY {
      OldDirectory(s, s', space);
      assert false;
    }
  }

  /** Only a space with a directory has an old one. */
  lemma DirectoryWasThere(s: State, s': State, r: nat)
    requires Inv(s) && Inv(s') && Grew(s, s') && r in s.live
    requires s'.mem[ROOTS + r] != EMPTY && Used(s, Idx(s'.mem[ROOTS + r]))
    ensures s.mem[ROOTS + r] != EMPTY
  {
    DirOf(s', r);
    assert LinksTo(s, ROOTS + r, Idx(s'.mem[ROOTS + r]));
  }

  /** The directory of a space that had none is new. */
  lemma DirectoryMade(s: State, s': State, r: nat)
    requires Inv(s) && Inv(s') && Grew(s, s') && r in s.live
    requires s.mem[ROOTS + r] == EMPTY && s'.mem[ROOTS + r] != EMPTY
    ensures Idx(s'.mem[ROOTS + r]) in Made(s, s') && s'.kind[Idx(s'.mem[ROOTS + r])] == 1
  {
    DirOf(s', r);
    if Used(s, Idx(s'.mem[ROOTS + r])) {
      DirectoryWasThere(s, s', r);
      assert false;
    }
  }

  /** The page tables made are those of the slots that had none. */
  lemma MadeTables(s: State, s': State, r: nat, g: nat, m: nat, paddr: Word, flags: Attr)
    requires Inv(s) && Inv(s') && NoEmptyTables(s') && Grew(s, s') && r in s.live && paddr % PAGESZ == 0
    requires g + m <= VPAGES && RangeMapped(s, s', r, g, m, paddr, flags)
    ensures |set k | k in Made(s, s') && s'.kind[k] == 2| == |Missing(s, r, g, m)|
  {
    hide Owned, Linked, RightsCovered, RootsPlain, NoEmptyTables, RangeMapped, Used, Pde, HasPresentBit, Touches;
    var slots := Missing(s, r, g, m);
    var f := TablesOf(s', r, slots);
    var made := set k | k in Made(s, s') && s'.kind[k] == 2;
    forall i | i in f ensures f[i] in made && HasPresentBit(Pde(s', r, i)) {
      SlotsPresent(s, s', r, g, m, paddr, flags, i);
      SlotTableMade(s, s', r, i);
    }
    forall i, j | i in f && j in f && f[i] == f[j] ensures i == j {
      SlotOfTable(s', r, i, j);
    }
    forall k | k in made ensures k in f.Values {
      var i := MadeForSlot(s, s', r, g, m, paddr, flags, k);
      assert i in f && f[i] == k;
    }
    InjectionSize(f);
    assert f.Keys == slots;
    assert f.Values == made;
  }

  // ---------------------------------------------------------------------------------------------
  // When a call succeeds

  /** All tables a call has made: the page tables, and the directory if there was none. */
  lemma MadeInAll(s: State, s': State, r: nat, g: nat, m: nat, paddr: Word, flags: Attr)
    requires Inv(s) && Inv(s') && NoEmptyTables(s') && Grew(s, s') && RootsKept(s, s', ROOTS + r) && r in s.live
    requires paddr % PAGESZ == 0 && g + m <= VPAGES && RangeMapped(s, s', r, g, m, paddr, flags)
    requires s'.mem[ROOTS + r] != EMPTY
    ensures |Made(s, s')| == Needed(s, r, g, m)
  {
    hide Owned, Linked, RightsCovered, RootsPlain, NoEmptyTables, RangeMapped, Used, Missing;
    var tables := set k | k in Made(s, s') && s'.kind[k] == 2;
    var d := Idx(s'.mem[ROOTS + r]);
    MadeTables(s, s', r, g, m, paddr, flags);
    forall k | k in Made(s, s') && k !in tables ensures s.mem[ROOTS + r] == EMPTY && k == d {
      MadeDirectory(s, s', r, k);
    }
    if s.mem[ROOTS + r] == EMPTY {
      DirectoryMade(s, s', r);
      assert Made(s, s') == tables + {d};
    } else {
      assert Made(s, s') == tables;
    }
  }

  /** What a call makes comes out of the free pages. */
  lemma MadeFromFree(s: State, s': State)
    requires Grew(s, s')
    ensures |Free(s)| == |Free(s')| + |Made(s, s')|
  {
    assert Free(s) == Free(s') + Made(s, s');
  }

  /** More pages need no fewer tables, and one more when they reach a slot that has none yet. */
  lemma NeededGrows(s: State, r: nat, g: nat, m: nat, n: nat)
    requires |s.mem| >= ROOTS && ROOTS + r < |s.mem| && m <= n
    ensures Needed(s, r, g, m) <= Needed(s, r, g, n)
    ensures m < n && g + m < VPAGES && TableMissing(s, r, g + m) && !Touches(g, m, (g + m) / ENTRIES) ==>
      Needed(s, r, g, m) < Needed(s, r, g, n)
  {
    var a, b := Missing(s, r, g, m), Missing(s, r, g, n);
    assert a <= b && |b| == |a| + |b - a|;
    if m < n && g + m < VPAGES && TableMissing(s, r, g + m) && !Touches(g, m, (g + m) / ENTRIES) {
      assert (g + m) / ENTRIES in b - a;
    }
  }

  /** Where a call that fails has stopped. Without a page for a directory it maps nothing; otherwise it has taken
      all free pages, and the next page is the first of a slot without a table, or the first of the range. */
  ghost predicate StoppedAt(s: State, r: nat, g: nat, m: nat, n: nat) {
    && |s.mem| >= ROOTS && ROOTS + r < |s.mem|
    && if s.mem[ROOTS + r] == EMPTY && Free(s) == {} then m == 0
       else
         && Needed(s, r, g, m) == |Free(s)| && m < n
         && TableMissing(s, r, g + m) && (m == 0 || (g + m) % ENTRIES == 0)
  }

  /** There is no other place to stop. */
  lemma StopUnique(s: State, r: nat, g: nat, m: nat, m': nat, n: nat)
    requires StoppedAt(s, r, g, m, n) && StoppedAt(s, r, g, m', n)
    ensures m == m'
  {
    hide Needed, Missing, Free, TableMissing;
    NextSlot(s, r, g, m, m');
    NextSlot(s, r, g, m', m);
  }

  lemma NextSlot(s: State, r: nat, g: nat, m: nat, m': nat)
    requires |s.mem| >= ROOTS && ROOTS + r < |s.mem|
    ensures m < m' && TableMissing(s, r, g + m) && (m == 0 || (g + m) % ENTRIES == 0) ==>
      Needed(s, r, g, m) < Needed(s, r, g, m')
  {
    if m < m' {
      assert (g + m) % ENTRIES == 0 && m > 0 ==> (g + m - 1) / ENTRIES < (g + m) / ENTRIES;
      NeededGrows(s, r, g, m, m');
    }
  }

  /** One page needs at most a directory and a table. */
  lemma OnePageNeeds(s: State, r: nat, g: nat)
    requires |s.mem| >= ROOTS && ROOTS + r < |s.mem|
    ensures Needed(s, r, g, 1) <= 2
  {
    var slot := {g / ENTRIES};
    assert Missing(s, r, g, 1) <= slot && |slot| == |Missing(s, r, g, 1)| + |slot - Missing(s, r, g, 1)|;
  }

  lemma AllFree(s: State)
    requires forall k :: 0 <= k < PHYSPAGES_MAX ==> !Used(s, k)
    ensures |Free(s)| == PHYSPAGES_MAX
  {
    assert Free(s) == {0, 1, 2, 3, 4};
  }

  /** The page a call stops at was not in a slot with a table before, nor in one of the pages it mapped. */
  lemma StopIsNew(s: State, s': State, r: nat, g: nat, m: nat, paddr: Word, flags: Attr)
    requires Inv(s) && Inv(s') && Grew(s, s') && r in s.live && paddr % PAGESZ == 0 && g + m < VPAGES
    requires RangeMapped(s, s', r, g, m, paddr, flags) && TableMissing(s', r, g + m)
    ensures !Touches(g, m, (g + m) / ENTRIES) && TableMissing(s, r, g + m)
    ensures m == 0 || (g + m) % ENTRIES == 0
  {
    var i := (g + m) / ENTRIES;
    if Touches(g, m, i) {
      SlotsPresent(s, s', r, g, m, paddr, flags, i);
      assert false;
    }
    if HasPresentBit(Pde(s, r, i)) {
      SlotKept(s, s', r, i);
      assert false;
    }
  }

  /** A slot keeps its table. */
  lemma SlotKept(s: State, s': State, r: nat, i: nat)
    requires Inv(s) && Inv(s') && Grew(s, s') && r in s.live && i < ENTRIES && HasPresentBit(Pde(s, r, i))
    ensures HasPresentBit(Pde(s', r, i))
  {
    TableOf(s, r, i);
    DirSlotPlace(s, r, i);
    OldDirectory(s, s', r);
    assert LinksTo(s', DirSlot(s, r, i), Idx(Pde(s, r, i)));
  }

  /** Without a directory no page is mapped, and no table made. */
  lemma NothingMapped(s: State, s': State, r: nat, g: nat, m: nat, paddr: Word, flags: Attr)
    requires Inv(s) && Inv(s') && NoEmptyTables(s') && Grew(s, s') && RootsKept(s, s', ROOTS + r) && r in s.live
    requires paddr % PAGESZ == 0 && g + m <= VPAGES
    requires RangeMapped(s, s', r, g, m, paddr, flags) && s'.mem[ROOTS + r] == EMPTY
    ensures m == 0 && s.mem[ROOTS + r] == EMPTY && Made(s, s') == {}
  {
    hide Owned, Linked, RightsCovered, RootsPlain, NoEmptyTables, RangeMapped;
    if m > 0 {
      SlotsPresent(s, s', r, g, m, paddr, flags, g / ENTRIES);
      assert false;
    }
    if s.mem[ROOTS + r] != EMPTY {
      OldDirectory(s, s', r);
      assert false;
    }
    if k :| k in Made(s, s') {
      if s'.kind[k] == 2 {
        var i := MadeForSlot(s, s', r, g, m, paddr, flags, k);
      } else {
        MadeDirectory(s, s', r, k);
      }
      assert false;
    }
  }

  /** A call of addrspc_map succeeds if and only if the free pages suffice for the tables it needs, and then takes
      just those. A call that fails stops where the first table is missing that it finds no page for. */
  lemma MapSucceedsIff(s: State, s': State, r: nat, vaddr: Word, paddr: Word, size: Word, flags: Attr, res: int, m: nat)
    requires Inv(s) && r in s.live && MapSpec(s, s', r, vaddr, paddr, size, flags, res, m)
    ensures res == 0 <==> Needed(s, r, vaddr / PAGESZ, Wanted(vaddr, size)) <= |Free(s)|
    ensures res == 0 ==> |Free(s')| == |Free(s)| - Needed(s, r, vaddr / PAGESZ, Wanted(vaddr, size))
    ensures res != 0 ==> StoppedAt(s, r, vaddr / PAGESZ, m, Wanted(vaddr, size)) && Free(s') == {}
  {
    hide Inv, NoEmptyTables, RangeMapped, Grew, RootsKept, Needed, Touches, Made, TableMissing, Free;
    var g, n := vaddr / PAGESZ, Wanted(vaddr, size);
    MadeFromFree(s, s');
    if s'.mem[ROOTS + r] == EMPTY {
      NothingMapped(s, s', r, g, m, AlignDown(paddr), flags);
    } else {
      MadeInAll(s, s', r, g, m, AlignDown(paddr), flags);
    }
    if res != 0 {
      NoneFree(s');
      StopIsNew(s, s', r, g, m, AlignDown(paddr), flags);
      NeededGrows(s, r, g, m, n);
      DirectoryNeeded(s, r, g, m);
      DirectoryNeeded(s, r, g, n);
    }
  }

  lemma NoneFree(s: State)
    requires forall i :: 0 <= i < PHYSPAGES_MAX ==> Used(s, i)
    ensures Free(s) == {}
  {
  }

  lemma DirectoryNeeded(s: State, r: nat, g: nat, n: nat)
    requires |s.mem| >= ROOTS && ROOTS + r < |s.mem|
    ensures s.mem[ROOTS + r] == EMPTY ==> Needed(s, r, g, n) > 0
  {
  }
}
