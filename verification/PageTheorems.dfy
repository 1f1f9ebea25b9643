/** What the page map guarantees to its callers: rights, exact unmap, round trip, whole runs. */
module PageTheorems {
  import opened Common
  import opened PageEntry
  import opened PageState
  import opened PageSteps
  import opened Sweep
  import opened UnmapSteps

  /** In every reachable map the AND over the levels grants exactly the rights of the leaf. */
  lemma EffectiveRightsOfLeaf(st: State, r: nat, p: nat)
    requires Inv(st) && r in st.live && p < VPAGES && Walk(st, r, p).Some?
    ensures EffectiveRights(st, r, p) == Walk(st, r, p).value.attr & RIGHTS
  {
    LeafSlot(st, r, p);
    var a := LeafAddr(st, r, p);
    assert RightsWithin(st.mem[a], st.mem[st.parent[a / ENTRIES]]);
    assert Pde(st, r, p / ENTRIES) == st.mem[st.parent[a / ENTRIES]];
  }

  /** After a map, each page it mapped has exactly the rights asked for, and every other page keeps its own. */
  lemma MapGrants(s: State, s': State, r: nat, vaddr: Word, paddr: Word, size: Word, flags: Attr, res: int, m: nat,
                  r': nat, p: nat)
    requires Inv(s) && MapSpec(s, s', r, vaddr, paddr, size, flags, res, m)
    requires r' in s.live && p < VPAGES
    ensures EffectiveRights(s', r', p)
         == if r' == r && vaddr / PAGESZ <= p < vaddr / PAGESZ + m then flags & RIGHTS else EffectiveRights(s, r', p)
  {
    hide Walk, Owned, Linked, RightsCovered, Pde, NoEmptyTables;
    if Walk(s', r', p).Some? {
      EffectiveRightsOfLeaf(s', r', p);
      var leaf := LeafFor(AlignDown(paddr), if p < vaddr / PAGESZ then 0 else p - vaddr / PAGESZ, flags);
      assert leaf.attr & RIGHTS == flags & RIGHTS;
    }
    if Walk(s, r', p).Some? { EffectiveRightsOfLeaf(s, r', p); }
  }

  /** A mapped page has a directory and a table. */
  lemma MappedInView(s: State, r: nat, p: nat)
    requires Inv(s) && r in s.live && p < VPAGES && Walk(s, r, p).Some?
    ensures ViewOf(s, r).root && p in ViewOf(s, r).pages && p / ENTRIES in ViewOf(s, r).dirs
  {
    PageSplit(p);
    LeafSlot(s, r, p);
    DirSlotPlace(s, r, p / ENTRIES);
  }

  lemma StartOf(vaddr: Word, size: Word)
    requires size < TWO32 - 1 - PAGESZ
    ensures var c := StartCur(vaddr, UnmapSize(size));
            IndexOk(c) && Start(c, 0) == vaddr / PAGESZ && c.size == PageCount(size) * PAGESZ
  {
  }

  lemma MappedRangeInView(s: State, r: nat, g: nat, n: nat)
    requires Inv(s) && r in s.live && g + n <= VPAGES && forall p :: g <= p < g + n ==> Walk(s, r, p).Some?
    ensures n > 0 ==> Full(ViewOf(s, r), g, n)
  {
    hide Walk, Owned, Linked, RightsCovered, RootsPlain, ViewOf;
    if n > 0 { MappedInView(s, r, g); }
    forall p: nat | g <= p < g + n ensures InView(ViewOf(s, r), p) {
      MappedInView(s, r, p);
    }
  }

  lemma SweepOfFullView(v: View, c: Cur, g: nat, n: nat)
    requires IndexOk(c) && Start(c, 0) == g && c.size == n * PAGESZ && g + n <= VPAGES
    requires n > 0 ==> Full(v, g, n)
    ensures SweepEntry(v, 0, 0, c).pages == Range(g, n)
  {
    if n == 0 {
      SweepTableStep(v, 0, 0, c);
    } else {
      assert Part(c, 0, n) == n;
      SweepFull(v, 0, 0, c, n);
    }
  }

  /** On a fully mapped range the reference sweep is the range itself. */
  lemma SweepOfFullRange(s: State, r: nat, vaddr: Word, size: Word)
    requires Inv(s) && r in s.live && size < TWO32 - 1 - PAGESZ
    requires vaddr / PAGESZ + PageCount(size) <= VPAGES
    requires forall p :: vaddr / PAGESZ <= p < vaddr / PAGESZ + PageCount(size) ==> Walk(s, r, p).Some?
    ensures IndexOk(StartCur(vaddr, UnmapSize(size)))
    ensures SweepEntry(ViewOf(s, r), 0, 0, StartCur(vaddr, UnmapSize(size))).pages
         == Range(vaddr / PAGESZ, PageCount(size))
  {
    hide Walk, Owned, Linked, RightsCovered, RootsPlain, ViewOf;
    var g, n, v, c := vaddr / PAGESZ, PageCount(size), ViewOf(s, r), StartCur(vaddr, UnmapSize(size));
    StartOf(vaddr, size);
    hide StartCur, UnmapSize, PageCount, Full;
    MappedRangeInView(s, r, g, n);
    SweepOfFullView(v, c, g, n);
  }

  /** Unmapping a fully mapped range removes exactly its pages, and kills the space if no other page is left. */
  lemma UnmapExact(s: State, s': State, r: nat, vaddr: Word, size: Word)
    requires Inv(s) && UnmapSpec(s, s', r, vaddr, size) && size < TWO32 - 1 - PAGESZ
    requires vaddr / PAGESZ + PageCount(size) <= VPAGES
    requires forall p :: vaddr / PAGESZ <= p < vaddr / PAGESZ + PageCount(size) ==> Walk(s, r, p).Some?
    ensures Cleared(s, s', r, Range(vaddr / PAGESZ, PageCount(size)))
    ensures r in s'.live <==>
              s.mem[ROOTS + r] == EMPTY ||
              exists p :: p in ViewOf(s, r).pages && !(vaddr / PAGESZ <= p < vaddr / PAGESZ + PageCount(size))
  {
    hide Walk, SweepEntry, Inv, PageCount, UnmapSize, StartCur, Cleared;
    SweepOfFullRange(s, r, vaddr, size);
  }

  // ---------------------------------------------------------------------------------------------
  // Map and unmap again

  /** A page table in use holds the leaf of some mapped page, below the directory slot of that page. */
  lemma TableHasPage(s: State, k: nat) returns (r: nat, p: nat)
    requires Inv(s) && NoEmptyTables(s) && Used(s, k) && s.kind[k] == 2
    ensures r in s.live && p < VPAGES && Walk(s, r, p).Some?
    ensures LeafAddr(s, r, p) >= 0 && LeafAddr(s, r, p) / ENTRIES == k
  {
    assert !TableEmpty(s, k);
    var a :| 0 <= a < ROOTS && a / ENTRIES == k && HasPresentBit(s.mem[a]);
    assert Lvl(s, a) == 2;
    Level2Slot(s, a);
    r, p := SpaceOf(s, a), Base(s, a);
  }

  /** `k` serves slot `i` of space `r` in one map and `k'` in another; both survive, with their parents, in `s1`. */
  lemma SameTable(s: State, s': State, s1: State, r: nat, p: nat)
    requires Inv(s) && Inv(s') && Inv(s1) && r in s.live && r in s'.live && p < VPAGES
    requires forall x :: Used(s, x) ==> Used(s1, x) && s1.kind[x] == s.kind[x] && s1.parent[x] == s.parent[x]
    requires forall x :: Used(s', x) ==> Used(s1, x) && s1.kind[x] == s'.kind[x] && s1.parent[x] == s'.parent[x]
    requires LeafAddr(s, r, p) >= 0 && LeafAddr(s', r, p) >= 0
    ensures Used(s, LeafAddr(s, r, p) / ENTRIES)
    ensures LeafAddr(s, r, p) / ENTRIES == LeafAddr(s', r, p) / ENTRIES
  {
    PageSplit(p);
    LeafSlot(s, r, p);
    LeafSlot(s', r, p);
    SameDirectory(s, s', s1, r, p / ENTRIES);
    var k, k' := LeafAddr(s, r, p) / ENTRIES, LeafAddr(s', r, p) / ENTRIES;
    assert Used(s1, k) && Used(s1, k') && s1.parent[k] == s1.parent[k'];
    assert LinksTo(s1, s1.parent[k], k) && LinksTo(s1, s1.parent[k'], k');
  }

  lemma SameDirectory(s: State, s': State, s1: State, r: nat, i: nat)
    requires Inv(s) && Inv(s') && Inv(s1) && r in s.live && r in s'.live && i < ENTRIES
    requires forall x :: Used(s, x) ==> Used(s1, x) && s1.kind[x] == s.kind[x] && s1.parent[x] == s.parent[x]
    requires forall x :: Used(s', x) ==> Used(s1, x) && s1.kind[x] == s'.kind[x] && s1.parent[x] == s'.parent[x]
    requires s.mem[ROOTS + r] != EMPTY && s'.mem[ROOTS + r] != EMPTY
    ensures Idx(s.mem[ROOTS + r]) == Idx(s'.mem[ROOTS + r])
    ensures DirSlot(s, r, i) == DirSlot(s', r, i)
  {
    DirOf(s, r);
    DirOf(s', r);
    var d, d' := Idx(s.mem[ROOTS + r]), Idx(s'.mem[ROOTS + r]);
    assert LinksTo(s1, s1.parent[d], d) && LinksTo(s1, s1.parent[d'], d');
  }

  /** If two maps translate alike and kept their tables' places in a third, then each table of the first is in the
      second. */
  lemma KeptTable(s: State, s': State, s1: State, k: nat)
    requires Inv(s) && Inv(s') && Inv(s1) && NoEmptyTables(s) && s.live == s'.live
    requires forall x :: Used(s, x) ==> Used(s1, x) && s1.kind[x] == s.kind[x] && s1.parent[x] == s.parent[x]
    requires forall x :: Used(s', x) ==> Used(s1, x) && s1.kind[x] == s'.kind[x] && s1.parent[x] == s'.parent[x]
    requires |s.mem| == |s'.mem| && SameWalks(s, s')
    requires forall r :: r in s.live && s.mem[ROOTS + r] != EMPTY ==> s'.mem[ROOTS + r] != EMPTY
    requires Used(s, k)
    ensures Used(s', k)
  {
    hide RightsCovered, RootsPlain;
    if s.kind[k] == 2 {
      var r, p := TableHasPage(s, k);
      assert Walk(s', r, p) == Walk(s, r, p);
      SameTable(s', s, s1, r, p);
    } else {
      var a := s.parent[k];
      assert Lvl(s, a) == 0 && LinksTo(s, a, k);
      SameDirectory(s, s', s1, a - ROOTS, 0);
      DirOf(s', a - ROOTS);
    }
  }

  ghost predicate Fresh(s: State, r: nat, g: nat, n: nat)
    requires |s.mem| >= ROOTS && ROOTS + r < |s.mem|
  {
    g + n <= VPAGES && forall p :: g <= p < g + n ==> Walk(s, r, p) == None
  }

  /** The steps of a round trip: map a fresh range, then unmap it. */
  ghost predicate RoundTrip(s0: State, s1: State, s2: State, r: nat, vaddr: Word, paddr: Word, size: Word, flags: Attr,
                            m: nat)
  {
    && Inv(s0) && NoEmptyTables(s0) && r in s0.live && size < TWO32 - 1 - PAGESZ
    && Fresh(s0, r, vaddr / PAGESZ, PageCount(size))
    && MapSpec(s0, s1, r, vaddr, paddr, size, flags, 0, m)
    && UnmapSpec(s1, s2, r, vaddr, size)
  }

  lemma RoundTripWalks(s0: State, s1: State, s2: State, r: nat, vaddr: Word, paddr: Word, size: Word, flags: Attr,
                       m: nat)
    requires RoundTrip(s0, s1, s2, r, vaddr, paddr, size, flags, m)
    ensures s2.live <= s0.live && SameWalks(s0, s2)
    ensures r in s2.live <==> exists p :: p in ViewOf(s0, r).pages
  {
    hide Walk, Owned, Linked, RightsCovered, NoEmptyTables, PageCount, LeafFor;
    UnmapExact(s1, s2, r, vaddr, size);
    var g, n := vaddr / PAGESZ, PageCount(size);
    assert forall p :: p in ViewOf(s0, r).pages ==> !(g <= p < g + n);
    assert forall p :: p in ViewOf(s1, r).pages && !(g <= p < g + n) <==> p in ViewOf(s0, r).pages;
  }

  /** A live space that lost its last page would be dead, so it still has its directory. */
  lemma RoundTripRoots(s0: State, s1: State, s2: State, r: nat, vaddr: Word, paddr: Word, size: Word, flags: Attr,
                       m: nat, r': nat)
    requires RoundTrip(s0, s1, s2, r, vaddr, paddr, size, flags, m) && r in s2.live && r' in s0.live
    ensures s0.mem[ROOTS + r'] != EMPTY <==> s2.mem[ROOTS + r'] != EMPTY
  {
    hide Owned, Linked, RightsCovered, NoEmptyTables, PageCount, LeafFor, RangeMapped, Cleared;
    RoundTripWalks(s0, s1, s2, r, vaddr, paddr, size, flags, m);
    if r' == r {
      var p :| p in ViewOf(s0, r).pages;
      assert Walk(s2, r, p) == Walk(s0, r, p);
    } else {
      StayLive(s1, s2, r);
      RootsOfOthers(s1, s2, r, r');
    }
  }

  lemma StayLive(s: State, s': State, r: nat)
    requires Shrunk(s, s', r, 0) && r in s'.live
    ensures s'.live == s.live
  {
    assert forall x :: x in s.live ==> x in s'.live || x in s.live - s'.live;
  }

  lemma RootsOfOthers(s1: State, s2: State, r: nat, r': nat)
    requires Inv(s1) && Inv(s2) && Shrunk(s1, s2, r, 0) && r' in s2.live && r' != r
    ensures s1.mem[ROOTS + r'] != EMPTY <==> s2.mem[ROOTS + r'] != EMPTY
  {
    if s1.mem[ROOTS + r'] != EMPTY {
      DirOf(s1, r');
      var d := Idx(s1.mem[ROOTS + r']);
      assert TableSpace(s1, d) == r';
      assert Used(s2, d);
      ParentIsPresent(s2, d);
    }
    if s2.mem[ROOTS + r'] != EMPTY {
      DirOf(s2, r');
      var d := Idx(s2.mem[ROOTS + r']);
      ParentIsPresent(s1, d);
    }
  }

  lemma SamePages(s0: State, s1: State, s2: State, r: nat)
    requires Inv(s0) && Inv(s1) && Inv(s2) && NoEmptyTables(s0) && NoEmptyTables(s2)
    requires Grew(s0, s1) && Shrunk(s1, s2, r, 0) && r in s2.live && s2.live <= s0.live && SameWalks(s0, s2)
    requires forall x :: x in s0.live ==> (s0.mem[ROOTS + x] != EMPTY <==> s2.mem[ROOTS + x] != EMPTY)
    ensures s2.pages == s0.pages
  {
    hide Walk, Owned, Linked, RightsCovered, TableEmpty;
    StayLive(s1, s2, r);
    forall k | 0 <= k < PHYSPAGES_MAX ensures s2.pages[k] == s0.pages[k] {
      if Used(s0, k) { KeptTable(s0, s2, s1, k); }
      if Used(s2, k) { KeptTable(s2, s0, s1, k); }
    }
  }

  /** Mapping a fresh range and unmapping it again restores every translation, and, when the space had a
      page before (otherwise it dies), exactly the set of table pages that was allocated before. */
  lemma MapUnmapRoundTrip(s0: State, s1: State, s2: State, r: nat, vaddr: Word, paddr: Word, size: Word, flags: Attr,
                          m: nat)
    requires RoundTrip(s0, s1, s2, r, vaddr, paddr, size, flags, m)
    ensures s2.live <= s0.live && SameWalks(s0, s2)
    ensures r in s2.live <==> exists p :: p in ViewOf(s0, r).pages
    ensures r in s2.live ==> s2.pages == s0.pages
  {
    hide Walk, Owned, Linked, RightsCovered, ViewOf, PageCount, RangeMapped, Cleared, SameWalks, LeafFor, TableEmpty,
         SweepEntry;
    RoundTripWalks(s0, s1, s2, r, vaddr, paddr, size, flags, m);
    if r in s2.live {
      forall r' | r' in s0.live ensures s0.mem[ROOTS + r'] != EMPTY <==> s2.mem[ROOTS + r'] != EMPTY {
        RoundTripRoots(s0, s1, s2, r, vaddr, paddr, size, flags, m, r');
      }
      SamePages(s0, s1, s2, r);
    }
  }
}
