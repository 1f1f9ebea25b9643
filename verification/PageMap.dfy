/** The page map code: table page allocator, recursive map and recursive unmap over one shared cursor. */
module PageMap {
  import opened Common
  import opened PageEntry
  import opened PageState
  import opened PageSteps
  import opened Sweep
  import opened UnmapSteps

  /** `offsets`, `*paddr` and `*size`: one cursor shared by all levels of a walk. */
  class Cursor {
    const offsets: array<nat>
    var paddr: Word
    var size: Word

    ghost function C(): Cur
      requires offsets.Length == 4
      reads this, offsets
    {
      Cur(offsets[1], offsets[2], paddr, size)
    }

    /** `pm_offsets`: positional decomposition of an address over the index widths of the levels. */
    constructor (vaddr: Word, paddr: Word, size: Word)
      ensures fresh(offsets) && offsets.Length == 4 && offsets[1] < ENTRIES && offsets[2] < ENTRIES
      ensures offsets[0] == 0 && offsets[3] < PAGESZ
      ensures vaddr == (offsets[1] * ENTRIES + offsets[2]) * PAGESZ + offsets[3]
      ensures Start(C(), 0) == vaddr / PAGESZ
      ensures this.paddr == paddr && this.size == size
    {
      offsets := new nat[4](_ => 0);
      this.paddr := paddr;
      this.size := size;
      new;
      Pow2Values();
      var v := vaddr;
      var i := 3;
      while i >= 0
        invariant -1 <= i <= 3
        invariant offsets.Length == 4 && fresh(offsets)
        invariant this.paddr == paddr && this.size == size
        invariant i == 3 ==> v == vaddr
        invariant i <= 2 ==> offsets[3] < PAGESZ
        invariant i == 2 ==> vaddr == v * PAGESZ + offsets[3]
        invariant i <= 1 ==> offsets[2] < ENTRIES
        invariant i == 1 ==> vaddr == (v * ENTRIES + offsets[2]) * PAGESZ + offsets[3]
        invariant i <= 0 ==> offsets[1] < ENTRIES && v == 0 &&
                             vaddr == (offsets[1] * ENTRIES + offsets[2]) * PAGESZ + offsets[3]
        invariant i < 0 ==> offsets[0] == 0
      {
        var width := Pow2(LVLS[i].idxBits);
        assert i == 3 ==> width == PAGESZ;
        assert i == 1 || i == 2 ==> width == ENTRIES;
        offsets[i] := v % width;
        assert i == 3 ==> offsets[3] == vaddr % PAGESZ && v / width == vaddr / PAGESZ;
        v := v / width;
        i := i - 1;
      }
    }

    /** Moves on to the next entry of a table of level `c`; true at the end of the table. */
    method Step(c: nat) returns (last: bool)
      requires 1 <= c <= 2 && offsets.Length == 4 && ChildIdx(C(), c - 1) < ENTRIES
      modifies offsets
      ensures C() == Advance(old(C()), c - 1) && last == (old(offsets[c]) + 1 == ENTRIES)
      ensures forall i :: 0 <= i < 4 && i != c ==> offsets[i] == old(offsets[i])
    {
      Pow2Values();
      offsets[c] := offsets[c] + 1;
      last := offsets[c] == Pow2(LVLS[c].idxBits);
      if last {
        offsets[c] := 0;
      }
    }
  }

  ghost function FirstSpaces(n: nat): (s: set<nat>)
    ensures forall r: nat :: r in s <==> r < n
  {
    if n == 0 then {} else FirstSpaces(n - 1) + {n - 1}
  }

  /** A map whose pool and root entries are zero. */
  lemma NoTables(st: State)
    requires Shape(st) && (forall k :: 0 <= k < PHYSPAGES_MAX ==> st.pages[k] == 0)
    requires forall a :: ROOTS <= a < |st.mem| ==> st.mem[a] == EMPTY
    ensures Inv(st) && NoEmptyTables(st)
    ensures forall r, p :: r in st.live && 0 <= p < VPAGES ==> Walk(st, r, p) == None
  {
    assert forall k :: !Used(st, k);
    assert PlainRoot(EMPTY);
  }

  class PageMap {
    const physpages: array<nat>
    const mem: array<Pme>
    ghost var kind: seq<nat>
    ghost var parent: seq<nat>
    ghost var live: set<nat>

    ghost function S(): State
      reads this, physpages, mem
    {
      State(physpages[..], mem[..], kind, parent, live)
    }

    /** All spaces start without a directory. */
    constructor (spaces: nat)
      ensures fresh(physpages) && fresh(mem)
      ensures Inv(S()) && NoEmptyTables(S())
      ensures forall r: nat :: r in live <==> r < spaces
      ensures mem.Length == ROOTS + spaces
      ensures forall r, p :: r in live && 0 <= p < VPAGES ==> Walk(S(), r, p) == None
      ensures forall k :: 0 <= k < PHYSPAGES_MAX ==> !Used(S(), k)
    {
      physpages := new nat[PHYSPAGES_MAX](_ => 0);
      mem := new Pme[ROOTS + spaces](_ => EMPTY);
      kind := [1, 1, 1, 1, 1];
      parent := [0, 0, 0, 0, 0];
      live := FirstSpaces(spaces);
      new;
      NoTables(S());
    }

    method PhyspageAlloc() returns (k: int)
      requires Shape(S())
      modifies physpages
      ensures k < 0 ==> physpages[..] == old(physpages[..]) && forall i :: 0 <= i < PHYSPAGES_MAX ==> Used(S(), i)
      ensures 0 <= k ==> k < PHYSPAGES_MAX && !Used(old(S()), k) && (forall j :: 0 <= j < k ==> Used(old(S()), j)) &&
                         physpages[..] == old(physpages[..])[k := PM_AREA + k * PAGESZ]
    {
      for i := 0 to PHYSPAGES_MAX
        invariant forall j :: 0 <= j < i ==> physpages[j] != 0
        invariant physpages[..] == old(physpages[..])
      {
        if physpages[i] == 0 {
          physpages[i] := PM_AREA + i * PAGESZ;
          return i;
        }
      }
      return -1;
    }

    /** The subtraction wraps, so an address below the area gives an index out of range. */
    method PhyspageFind(paddr: Word) returns (k: int)
      ensures k == if PM_AREA <= paddr < PM_AREA + PHYSPAGES_MAX * PAGESZ then (paddr - PM_AREA) / PAGESZ else -1
    {
      var i := ((paddr + TWO32 - PM_AREA) % TWO32) / PAGESZ;
      if 0 <= i < PHYSPAGES_MAX { return i; } else { return -1; }
    }

    method ClearTable(k: nat)
      requires k < PHYSPAGES_MAX && mem.Length >= ROOTS
      modifies mem
      ensures forall a :: 0 <= a < mem.Length ==>
                mem[a] == if a < ROOTS && a / ENTRIES == k then EMPTY else old(mem[a])
    {
      for j := 0 to ENTRIES
        invariant forall a :: 0 <= a < mem.Length ==>
                    mem[a] == if k * ENTRIES <= a < k * ENTRIES + j then EMPTY else old(mem[a])
      {
        mem[k * ENTRIES + j] := EMPTY;
      }
    }
  
    /** Allocates and zeroes a page for the table below the absent entry `e`. */
    method NewTable(lvl: nat, e: nat, flags: Attr) returns (k: int)
      requires Inv(S()) && NoEmptyTables(S())
      requires e < mem.Length && Lvl(S(), e) == lvl <= 1 && !IsPresent(mem[e], lvl)
      modifies physpages, mem, this`kind, this`parent
      ensures k < 0 ==> S() == old(S()) && forall i :: 0 <= i < PHYSPAGES_MAX ==> Used(S(), i)
      ensures 0 <= k ==> Inv(S()) && TableLinked(old(S()), S(), e, k, mem[e]) && (lvl == 0 ==> PlainRoot(mem[e]))
      ensures 0 <= k ==> mem[e] == SetFlags(Pme(AREA_FRAME + k, 0), flags | PRESENT, lvl)
    {
      hide Owned, Linked, RightsCovered, RootsPlain, TableEmpty, PlainRoot, SetFlags, IsPresent;
      k := PhyspageAlloc();
      if k < 0 { assert S() == old(S()); return; }
      TableEntry(k, flags, lvl);
      ClearTable(k);
      mem[e] := Pack(physpages[k], flags | PRESENT, lvl);
      kind := kind[k := lvl + 1];
      parent := parent[k := e];
      hide Pack;
      LinkTable(old(S()), S(), e, k, mem[e]);
    }

    /** Finds the table below entry `e`, or makes one. */
    method OpenTable(lvl: nat, e: nat, flags: Attr) returns (k: int)
      requires Inv(S()) && NoEmptyTables(S())
      requires e < mem.Length && Lvl(S(), e) == lvl <= 1
      modifies physpages, mem, this`kind, this`parent
      ensures k < 0 ==>
        S() == old(S()) && !IsPresent(mem[e], lvl) && forall i :: 0 <= i < PHYSPAGES_MAX ==> Used(S(), i)
      ensures 0 <= k ==> Inv(S()) && Grew(old(S()), S()) && SameWalks(old(S()), S()) && RootsKept(old(S()), S(), e)
      ensures 0 <= k ==> Used(S(), k) && kind[k] == lvl + 1 && parent[k] == e && NoEmptyTablesBut(S(), k)
      ensures 0 <= k && lvl == 1 ==> mem[e].attr & flags & RIGHTS == flags & RIGHTS
    {
      ghost var s := S();
      if !IsPresent(mem[e], lvl) {
        k := NewTable(lvl, e, flags);
        if 0 <= k { LinkTable(s, S(), e, k, mem[e]); }
      } else {
        k := PhyspageFind(Paddr(mem[e]));
        assert Used(s, Idx(mem[e])) && k == Idx(mem[e]);
        mem[e] := SetFlags(mem[e], flags, lvl);
        assert S() == s.(mem := s.mem[e := SetFlags(s.mem[e], flags, lvl)]);
        ReopenTable(s, e, flags);
      }
    }
  
    /** `addrspc_map_recursive`: maps, below entry `e`, as much of the cursor's range as that entry covers. */
    method MapRecursive(lvl: nat, e: nat, cur: Cursor, flags: Attr) returns (res: int, ghost m: nat)
      requires Inv(S()) && lvl <= 2 && e < mem.Length && Lvl(S(), e) == lvl
      requires cur.offsets.Length == 4 && cur.offsets != physpages
      requires CurOk(cur.C()) && (lvl > 0 ==> cur.size > 0)
      requires NoEmptyTablesBut(S(), if lvl == 2 then e / ENTRIES else PHYSPAGES_MAX)
      requires lvl == 2 ==> S().mem[parent[e / ENTRIES]].attr & flags & RIGHTS == flags & RIGHTS
      modifies physpages, mem, this`kind, this`parent, cur, cur.offsets
      ensures MapProgress(old(S()), old(cur.C()), S(), cur.C(), m, lvl, e, flags) && NoEmptyTables(S())
      ensures res == 0 ==> MapComplete(old(cur.C()), cur.C(), m, lvl)
      ensures res == 0 || res == -ENOMEM
      ensures res != 0 ==> forall i :: 0 <= i < PHYSPAGES_MAX ==> Used(S(), i)
      ensures res != 0 ==> MapStuck(old(S()), old(cur.C()), S(), cur.C(), m, lvl, e)
      ensures lvl == 2 ==> res == 0 && mem[..] == old(mem[..])[e := mem[e]] && m == 1
      ensures lvl <= 1 && res == 0 ==> IsPresent(mem[e], lvl)
      ensures forall i :: 0 <= i <= lvl && i < 4 ==> cur.offsets[i] == old(cur.offsets[i])
      decreases 2 - lvl, 1
    {
      hide Walk, Base, SpaceOf, Linked, Owned, RightsCovered, TableEmpty, MapStuck;
      ghost var s0, c0 := S(), cur.C();
      if LVLS[lvl + 1].isPage {
        mem[e] := Pack(cur.paddr, flags | PRESENT, lvl);
        MapLeaf(s0, e, cur.paddr, flags);
        assert S() == s0.(mem := s0.mem[e := LeafFor(cur.paddr, 0, flags)]);
        cur.paddr, cur.size := (cur.paddr + PAGESZ) % TWO32, cur.size - PAGESZ;
        return 0, 1;
      }
      var k := OpenTable(lvl, e, flags);
      MapStart(s0, S(), c0, lvl, e, flags);
      if k < 0 {
        StuckAtOnce(s0, c0, lvl, e);
        return -ENOMEM, 0;
      }
      res, m := MapChildren(lvl, e, k, cur, flags, s0);
    }

    /** Invariant of the loop over the entries of table `k`, which hangs below entry `e`. */
    ghost predicate MapLoop(s0: State, c0: Cur, m: nat, lvl: nat, e: nat, k: nat, cur: Cursor, flags: Attr)
      reads this, physpages, mem, cur, cur.offsets
    {
      && lvl <= 1 && Inv(s0) && e < mem.Length == |s0.mem| && Lvl(s0, e) == lvl
      && cur.offsets.Length == 4 && cur.offsets != physpages
      && MapProgress(s0, c0, S(), cur.C(), m, lvl, e, flags)
      && Used(S(), k) && kind[k] == lvl + 1 && parent[k] == e
      && NoEmptyTablesBut(S(), if lvl == 1 then k else PHYSPAGES_MAX)
      && (m > 0 ==> NoEmptyTables(S()))
      && (lvl == 1 ==> mem[e].attr & flags & RIGHTS == flags & RIGHTS)
    }

    method MapChildren(lvl: nat, e: nat, k: nat, cur: Cursor, flags: Attr, ghost s0: State)
      returns (res: int, ghost m: nat)
      requires cur.offsets.Length == 4 && MapLoop(s0, cur.C(), 0, lvl, e, k, cur, flags) && (lvl > 0 ==> cur.size > 0)
      modifies physpages, mem, this`kind, this`parent, cur, cur.offsets
      ensures MapProgress(s0, old(cur.C()), S(), cur.C(), m, lvl, e, flags) && NoEmptyTables(S())
      ensures res == 0 ==> MapComplete(old(cur.C()), cur.C(), m, lvl)
      ensures res == 0 || res == -ENOMEM
      ensures res != 0 ==> forall i :: 0 <= i < PHYSPAGES_MAX ==> Used(S(), i)
      ensures res != 0 ==> MapStuck(s0, old(cur.C()), S(), cur.C(), m, lvl, e)
      ensures forall i :: 0 <= i <= lvl ==> cur.offsets[i] == old(cur.offsets[i])
      ensures IsPresent(mem[e], lvl)
      decreases 2 - lvl, 0, ENTRIES + 1
    {
      hide MapStuck, Lvl, Used, Inv, NoEmptyTablesBut, Start, RangeMapped, Grew, Base, SpaceOf;
      ghost var c0 := cur.C();
      var last := false;
      res, m := 0, 0;
      while cur.size != 0 && !last
        invariant MapLoop(s0, c0, m, lvl, e, k, cur, flags)
        invariant cur.size != 0 && !last ==> Start(cur.C(), lvl) == Start(c0, lvl) + m
        invariant last ==> MapComplete(c0, cur.C(), m, lvl)
        invariant lvl == 1 && m == 0 ==> cur.size != 0 && !last
        invariant forall i :: 0 <= i <= lvl ==> cur.offsets[i] == old(cur.offsets[i])
        invariant res == 0
        decreases !last, ENTRIES - cur.offsets[lvl + 1]
      {
        res, m, last := MapChild(lvl, e, k, cur, flags, s0, c0, m);
        ParentIsPresent(S(), k);
        if res < 0 { return; }
      }
      ParentIsPresent(S(), k);
    }

    /** One turn of the loop: map below the cursor's entry of table `k`, then advance to the next entry. */
    method MapChild(lvl: nat, e: nat, k: nat, cur: Cursor, flags: Attr, ghost s0: State, ghost c0: Cur, ghost m0: nat)
      returns (res: int, ghost m: nat, last: bool)
      requires MapLoop(s0, c0, m0, lvl, e, k, cur, flags)
      requires cur.size > 0 && Start(cur.C(), lvl) == Start(c0, lvl) + m0
      modifies physpages, mem, this`kind, this`parent, cur, cur.offsets
      ensures MapLoop(s0, c0, m, lvl, e, k, cur, flags) && NoEmptyTables(S()) && m0 <= m
      ensures res == 0 ==>
                if last then MapComplete(c0, cur.C(), m, lvl)
                else cur.offsets[lvl + 1] == old(cur.offsets[lvl + 1]) + 1 &&
                     (cur.size != 0 ==> Start(cur.C(), lvl) == Start(c0, lvl) + m)
      ensures res == 0 && lvl == 1 ==> m > m0
      ensures res == 0 || res == -ENOMEM
      ensures res != 0 ==> forall i :: 0 <= i < PHYSPAGES_MAX ==> Used(S(), i)
      ensures res != 0 ==> MapStuck(s0, c0, S(), cur.C(), m, lvl, e)
      ensures forall i :: 0 <= i <= lvl ==> cur.offsets[i] == old(cur.offsets[i])
      decreases 2 - lvl, 0, 0
    {
      hide Walk, LeafFor, Base, SpaceOf, Lvl, Linked, Owned, RightsCovered, TableEmpty, RangeMapped, Start, MapComplete,
           MapStuck;
      var c := lvl + 1;
      ghost var s1, c1, m2 := S(), cur.C(), 0;
      SamePlace(s0, s1, e);
      ChildPlace(s1, e, k, cur.offsets[c]);
      last := false;
      res, m2 := MapRecursive(c, k * ENTRIES + cur.offsets[c], cur, flags);
      MapStep(s0, c0, s1, c1, m0, S(), cur.C(), m2, lvl, e, k, flags);
      m := m0 + m2;
      assert lvl == 1 ==> mem[e] == old(mem[e]);
      if res < 0 {
        StuckStep(s0, c0, s1, c1, m0, S(), cur.C(), m2, lvl, e, k);
        return;
      }
      ghost var c2 := cur.C();
      AdvanceComplete(c0, c1, m0, c2, m2, lvl);
      last := cur.Step(c);
    }
  
    // -------------------------------------------------------------------------------------------
    // Unmap

    method IsTableEmpty(k: nat) returns (empty: bool)
      requires Shape(S()) && k < PHYSPAGES_MAX
      ensures empty == TableEmpty(S(), k)
    {
      empty := true;
      for i := 0 to ENTRIES
        invariant empty == forall a :: k * ENTRIES <= a < k * ENTRIES + i ==> !HasPresentBit(mem[a])
      {
        if HasPresentBit(mem[k * ENTRIES + i]) {
          empty := false;
        }
      }
      assert forall a :: 0 <= a < ROOTS ==> (a / ENTRIES == k <==> k * ENTRIES <= a < k * ENTRIES + ENTRIES);
    }

    /** `addrspc_unmap_recursive`: does to the map exactly what the reference sweep says. */
    method UnmapRecursive(lvl: nat, e: nat, cur: Cursor) returns (res: int)
      requires Inv(S()) && lvl <= 2 && e < mem.Length && Lvl(S(), e) == lvl
      requires cur.offsets.Length == 4 && cur.offsets != physpages && IndexOk(cur.C())
      requires NoEmptyTablesBut(S(), if lvl == 2 then e / ENTRIES else PHYSPAGES_MAX)
      modifies physpages, mem, this`live, cur, cur.offsets
      ensures res == 0 && Unmapped(old(S()), old(cur.C()), S(), cur.C(), lvl, e)
      ensures lvl >= 1 ==> UpperFrame(old(S()), S(), e)
      ensures NoEmptyTablesBut(S(), if lvl == 2 then e / ENTRIES else PHYSPAGES_MAX)
      ensures lvl == 0 ==> (e - ROOTS in live <==> old(mem[e]) == EMPTY || Survives(old(S()), old(cur.C()), e - ROOTS))
      ensures lvl == 0 && e - ROOTS !in live ==> Dangling(old(S()), S(), e)
      decreases 2 - lvl, 1
    {
      hide Walk, Base, SpaceOf, TableEmpty, RightsCovered, RootsPlain, Survives, Cleared, ViewOf, Owned, Dangling,
           SweepEntry;
      if lvl == 0 { RootLevel(S(), e); }
      ghost var s0, c0 := S(), cur.C();
      if !IsPresent(mem[e], lvl) {
        assert lvl == 0 ==> mem[e] == EMPTY;
        SkipAbsent(s0, c0, lvl, e);
        cur.size := SkipSize(lvl, cur.size);
        return 0;
      }
      if LVLS[lvl + 1].isPage {
        mem[e] := ClearPresent(mem[e]);
        UnmapLeaf(s0, c0, e);
        assert S() == s0.(mem := s0.mem[e := ClearPresent(s0.mem[e])]);
        cur.size := (cur.size + TWO32 - PAGESZ) % TWO32;
        return 0;
      }
      var k := PhyspageFind(Paddr(mem[e]));
      assert Used(s0, Idx(mem[e])) && k == Idx(mem[e]);
      res := UnmapTable(lvl, e, k, cur);
    }

    method UnmapTable(lvl: nat, e: nat, k: nat, cur: Cursor) returns (res: int)
      requires Inv(S()) && lvl <= 1 && e < mem.Length && Lvl(S(), e) == lvl && IsPresent(mem[e], lvl)
      requires k == Idx(mem[e]) && Used(S(), k) && kind[k] == lvl + 1 && parent[k] == e
      requires cur.offsets.Length == 4 && cur.offsets != physpages && IndexOk(cur.C())
      requires NoEmptyTables(S())
      modifies physpages, mem, this`live, cur, cur.offsets
      ensures res == 0 && Unmapped(old(S()), old(cur.C()), S(), cur.C(), lvl, e)
      ensures lvl == 1 ==> UpperFrame(old(S()), S(), e)
      ensures NoEmptyTables(S())
      ensures lvl == 0 ==> (e - ROOTS in live <==> Survives(old(S()), old(cur.C()), e - ROOTS))
      ensures lvl == 0 && e - ROOTS !in live ==> Dangling(old(S()), S(), e)
      decreases 2 - lvl, 0
    {
      hide Walk, Base, SpaceOf, RightsCovered, SweepLeft, Cleared, Survives, TableEmpty, Owned, Linked;
      ghost var s0, c0 := S(), cur.C();
      ghost var gone;
      res, gone := UnmapChildren(lvl, e, k, cur);
      ghost var s := S();
      FinishTable(s0, c0, s, cur.C(), gone, lvl, e, k);
      var empty := IsTableEmpty(k);
      if empty {
        mem[e] := ClearPresent(mem[e]);
        physpages[k] := 0;
        live := if lvl == 0 then live - {e - ROOTS} else live;
        assert S() == Freed(s, e);
      }
    }

    /** Invariant of the unmap loop over the entries of table `k`, which hangs below entry `e`. */
    ghost predicate UnmapLoop(s0: State, c0: Cur, gone: set<nat>, last: bool, lvl: nat, e: nat, k: nat, cur: Cursor)
      reads this, physpages, mem, cur, cur.offsets
    {
      && lvl <= 1 && cur.offsets.Length == 4 && cur.offsets != physpages && e < mem.Length
      && Sweeping(s0, c0, S(), cur.C(), gone, last, lvl, e)
      && Used(s0, k) && s0.kind[k] == lvl + 1 && s0.parent[k] == e
      && Used(S(), k) && kind[k] == lvl + 1
      && (lvl == 1 ==> UpperFrame(s0, S(), e))
      && NoEmptyTablesBut(S(), if lvl == 1 then k else PHYSPAGES_MAX)
    }

    method UnmapChildren(lvl: nat, e: nat, k: nat, cur: Cursor) returns (res: int, ghost gone: set<nat>)
      requires Inv(S()) && lvl <= 1 && e < mem.Length && Lvl(S(), e) == lvl && IsPresent(mem[e], lvl)
      requires k == Idx(mem[e]) && Used(S(), k) && kind[k] == lvl + 1 && parent[k] == e
      requires cur.offsets.Length == 4 && cur.offsets != physpages && IndexOk(cur.C())
      requires NoEmptyTables(S())
      modifies physpages, mem, this`live, cur, cur.offsets
      ensures res == 0 && UnmapLoop(old(S()), old(cur.C()), gone, true, lvl, e, k, cur)
      decreases 2 - lvl, 0, 1
    {
      hide Walk, Sweeping, Base, SpaceOf;
      ghost var s0, c0 := S(), cur.C();
      var last := false;
      res, gone := 0, {};
      StartSweeping(s0, c0, lvl, e);
      while cur.size != 0 && !last
        invariant UnmapLoop(s0, c0, gone, last, lvl, e, k, cur)
        invariant res == 0
        decreases !last, ENTRIES - cur.offsets[lvl + 1]
      {
        res, gone, last := UnmapChild(lvl, e, k, cur, s0, c0, gone);
        if res < 0 { return; }
      }
      if !last {
        SweepingDone(s0, c0, S(), cur.C(), gone, lvl, e);
      }
    }

    /** One turn of the loop: unmap below the cursor's entry of table `k`, then advance to the next entry. */
    method UnmapChild(lvl: nat, e: nat, k: nat, cur: Cursor, ghost s0: State, ghost c0: Cur, ghost gone0: set<nat>)
      returns (res: int, ghost gone: set<nat>, last: bool)
      requires UnmapLoop(s0, c0, gone0, false, lvl, e, k, cur) && cur.size != 0
      modifies physpages, mem, this`live, cur, cur.offsets
      ensures res == 0 && UnmapLoop(s0, c0, gone, last, lvl, e, k, cur)
      ensures !last ==> old(cur.offsets[lvl + 1]) < cur.offsets[lvl + 1] < ENTRIES
      decreases 2 - lvl, 0, 0
    {
      hide Walk, Sweeping, Unmapped, Owned, Linked, RightsCovered, RootsPlain, TableEmpty, ViewOf, SweepEntry, Base,
           SpaceOf;
      ghost var s1, c1 := S(), cur.C();
      ChildSweep(s0, c0, s1, c1, gone0, lvl, e, k);
      res := UnmapRecursive(lvl + 1, k * ENTRIES + cur.offsets[lvl + 1], cur);
      ghost var at := Base(s0, e) + ChildIdx(c1, lvl) * Cover(lvl + 1);
      ghost var w := SweepEntry(ViewOf(s1, SpaceOf(s0, e)), lvl + 1, at, c1);
      ghost var s2, c2 := S(), cur.C();
      SweepingStep(s0, c0, s1, c1, gone0, s2, c2, lvl, e, k, SpaceOf(s0, e), w);
      hide Inv, NoEmptyTablesBut, UpperFrame;
      last := cur.Step(lvl + 1);
      gone := gone0 + w.pages;
      assert S() == s2 && cur.C() == Advance(c2, lvl);
    }
  
    // -------------------------------------------------------------------------------------------
    // Entry points

    /** `addrspc_map`. `m` is how many pages of the range were mapped. */
    method Map(r: nat, vaddr: Word, paddr: Word, size: Word, flags: Attr) returns (res: int, ghost m: nat)
      requires Inv(S()) && NoEmptyTables(S()) && r in live
      modifies physpages, mem, this`kind, this`parent
      ensures MapSpec(old(S()), S(), r, vaddr, paddr, size, flags, res, m)
    {
      hide Walk, LeafFor, RangeMapped, Owned, Linked, RightsCovered, TableEmpty;
      var cur := new Cursor(AlignDown(vaddr), AlignDown(paddr), AlignUp(size));
      ghost var c0 := cur.C();
      assert AlignDown(vaddr) / PAGESZ == vaddr / PAGESZ;
      assert Lvl(S(), ROOTS + r) == 0;
      res, m := MapRecursive(0, ROOTS + r, cur, flags);
      assert res == 0 ==> mem[ROOTS + r] != EMPTY;
      WholeMap(old(S()), c0, S(), cur.C(), r, vaddr, paddr, size, flags, res, m);
    }

    /** `addrspc_unmap`. */
    method Unmap(r: nat, vaddr: Word, size: Word) returns (res: int)
      requires Inv(S()) && NoEmptyTables(S()) && r in live
      modifies physpages, mem, this`live
      ensures res == 0 && UnmapSpec(old(S()), S(), r, vaddr, size)
    {
      hide Owned, Linked, RightsCovered, RootsPlain, TableEmpty, UnmapSpec, Unmapped, Dangling, Survives;
      var cur := new Cursor(AlignDown(vaddr), 0, UnmapSize(size));
      ghost var s, c0 := S(), cur.C();
      assert Lvl(s, ROOTS + r) == 0;
      assert c0 == StartCur(vaddr, UnmapSize(size));
      res := UnmapRecursive(0, ROOTS + r, cur);
      WholeUnmap(s, S(), cur.C(), r, vaddr, size);
    }

    /** `addrspc_cleanup`: unmaps everything, with a size that is no number of pages. */
    method Cleanup(r: nat) returns (res: int)
      requires Inv(S()) && NoEmptyTables(S()) && r in live
      modifies physpages, mem, this`live
      ensures res == 0 && UnmapSpec(old(S()), S(), r, 0, TWO32 - 1)
    {
      hide UnmapSpec, Inv, NoEmptyTables;
      res := Unmap(r, 0, TWO32 - 1);
    }

    /** `addrspc_init`: the kernel's identity map of the first 4 MiB, without user or write access. */
    method InitSpace(r: nat) returns (res: int, ghost m: nat)
      requires Inv(S()) && NoEmptyTables(S()) && r in live
      modifies physpages, mem, this`kind, this`parent
      ensures MapSpec(old(S()), S(), r, 0, 0, 0x40_0000, 0, res, m)
      ensures res == 0 ==> forall p :: 0 <= p < ENTRIES ==> Walk(S(), r, p) == Some(Pme(p, PRESENT))
    {
      hide Walk, RangeMapped;
      res, m := Map(r, 0, 0, 0x40_0000, 0);
      if res == 0 {
        IdentityMap(old(S()), S(), r, m);
      }
    }
  }
}
