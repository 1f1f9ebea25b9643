/** Runs of the code in which unmap does not do what its caller asked for. */
module PageWitness {
  import opened Common
  import opened PageEntry
  import opened PageState
  import opened PageSteps
  import opened Sweep
  import opened UnmapSteps
  import opened PageTheorems
  import opened PageRoom
  import opened PageRuns
  import opened UnmapHoles
  import opened PageMap

  /** Maps page `p`, without rights, to the frame of the same number. */
  function MapPage(p: nat): Op
    requires p < VPAGES
  {
    MapOp(0, p * PAGESZ, p * PAGESZ, PAGESZ, 0, 0, 1)
  }

  // ---------------------------------------------------------------------------------------------
  // Such runs exist: each of two pages needs two table pages at most, and there are five

  lemma MapPageSpec(s: State, s': State, p: nat, res: int, m: nat)
    requires p < VPAGES && Inv(s) && 0 in s.live && MapSpec(s, s', 0, p * PAGESZ, p * PAGESZ, PAGESZ, 0, res, m)
    ensures m <= 1 && (res == 0 ==> m == 1) && s'.live == s.live && |s'.mem| == |s.mem|
    ensures forall q :: 0 <= q < VPAGES ==> (Walk(s', 0, q).Some? <==> Walk(s, 0, q).Some? || (q == p && m == 1))
  {
    hide Walk, Inv, NoEmptyTables, LeafFor;
    assert PageCount(PAGESZ) == 1 && p * PAGESZ / PAGESZ == p;
  }

  /** Maps two pages of a fresh map with one space, and unmaps a range. */
  method TwoPageRun(p1: nat, p2: nat, vaddr: Word, size: Word) returns (ghost states: seq<State>, ghost ops: seq<Op>)
    requires p1 < VPAGES && p2 < VPAGES
    ensures Run(states, ops) && ops == [MapPage(p1), MapPage(p2), UnmapOp(0, vaddr, size)]
  {
    hide Walk, MapSpec, UnmapSpec, NoEmptyTables, Inv;
    var pm := new PageMap(1);
    ghost var s0 := pm.S();
    AllFree(s0);
    var res, m := MapOne(pm, p1);
    ghost var s1 := pm.S();
    res, m := MapOne(pm, p2);
    ghost var s2 := pm.S();
    res := pm.Unmap(0, vaddr, size);
    states, ops := [s0, s1, s2, pm.S()], [MapPage(p1), MapPage(p2), UnmapOp(0, vaddr, size)];
  }

  /** Maps a page when two table pages are free. */
  method MapOne(pm: PageMap, p: nat) returns (res: int, ghost m: nat)
    requires p < VPAGES && Inv(pm.S()) && NoEmptyTables(pm.S()) && 0 in pm.live && |Free(pm.S())| >= 2
    modifies pm.physpages, pm.mem, pm`kind, pm`parent
    ensures res == 0 && m == 1 && MapSpec(old(pm.S()), pm.S(), 0, p * PAGESZ, p * PAGESZ, PAGESZ, 0, res, m)
    ensures Inv(pm.S()) && NoEmptyTables(pm.S()) && |Free(pm.S())| >= |old(Free(pm.S()))| - 2
  {
    hide Inv, NoEmptyTables, MapSpec, Free;
    ghost var s := pm.S();
    res, m := pm.Map(0, p * PAGESZ, p * PAGESZ, PAGESZ, 0);
    OnePageFits(s, pm.S(), p, res, m);
  }

  lemma OnePageFits(s: State, s': State, p: nat, res: int, m: nat)
    requires p < VPAGES && Inv(s) && 0 in s.live && MapSpec(s, s', 0, p * PAGESZ, p * PAGESZ, PAGESZ, 0, res, m)
    requires |Free(s)| >= 2
    ensures res == 0 && m == 1 && |Free(s')| >= |Free(s)| - 2 && Inv(s') && NoEmptyTables(s')
  {
    hide Inv, NoEmptyTables, Needed, Free, StoppedAt;
    MapPageSpec(s, s', p, res, m);
    assert Wanted(p * PAGESZ, PAGESZ) == 1 && p * PAGESZ / PAGESZ == p && ROOTS < |s.mem| by {
      assert Shape(s);
    }
    OnePageNeeds(s, 0, p);
    MapSucceedsIff(s, s', 0, p * PAGESZ, p * PAGESZ, PAGESZ, 0, res, m);
  }

  // ---------------------------------------------------------------------------------------------
  // What happens in them

  /** The view after both maps. */
  lemma TwoPages(states: seq<State>, ops: seq<Op>, p1: nat, p2: nat)
    requires Run(states, ops) && |ops| == 3 && p1 < VPAGES && p2 < VPAGES
    requires ops[0] == MapPage(p1) && ops[1] == MapPage(p2) && ops[2].UnmapOp? && ops[2].r == 0
    ensures Inv(states[2]) && 0 in states[2].live && states[2].mem[ROOTS] != EMPTY
    ensures UnmapSpec(states[2], states[3], 0, ops[2].vaddr, ops[2].size)
    ensures ViewOf(states[2], 0) == View(true, {p1 / ENTRIES, p2 / ENTRIES}, {p1, p2})
  {
    hide Walk, UnmapSpec, NoEmptyTables, Owned, Linked, RightsCovered, RootsPlain;
    assert Step(states[0], ops[0], states[1]) && Step(states[1], ops[1], states[2]);
    assert Step(states[2], ops[2], states[3]);
    var s := states[2];
    MapPageSpec(states[0], states[1], p1, 0, 1);
    MapPageSpec(states[1], s, p2, 0, 1);
    DirsFromPages(s, 0);
    var v := ViewOf(s, 0);
    assert v.pages == {p1, p2};
    assert v.dirs == {p1 / ENTRIES, p2 / ENTRIES};
  }

  lemma {:induction false} CostHoles(v: View, a: nat, p: nat)
    requires a <= p && forall q :: a <= q < p ==> q / ENTRIES in v.dirs && q !in v.pages
    ensures Cost(v, a, p) == (p - a) * HOLE
    decreases p - a
  {
    if a < p {
      CostHoles(v, a + 1, p);
    }
  }

  /** Pages 0 and 2 are mapped, and the range of the first three pages is unmapped: page 2, behind the hole,
      stays mapped. */
  lemma HoleLeavesPageMapped(states: seq<State>, ops: seq<Op>)
    requires Run(states, ops) && ops == [MapPage(0), MapPage(2), UnmapOp(0, 0, 3 * PAGESZ)]
    ensures Mapped(states[2], 0, 2) && Mapped(states[3], 0, 2)
  {
    hide UnmapSpec, Walk, Inv;
    TwoPages(states, ops, 0, 2);
    var v := ViewOf(states[2], 0);
    assert First(v, 0) == 0 && UnmapSize(3 * PAGESZ) == 3 * PAGESZ;
    UnmapRemoves(states[2], states[3], 0, 0, 3 * PAGESZ, 2);
    assert After(v, 3 * PAGESZ, 0) == 2 * PAGESZ && After(v, 2 * PAGESZ, 1) == 0;
    assert Left(v, 3 * PAGESZ, 0, 2) == Left(v, 2 * PAGESZ, 1, 2) == Left(v, 0, 2, 2) == 0;
    ViewPage(states[2], 0, 2);
  }

  /** Pages 1024 and 1025 are mapped, and page 0, in an absent table, is unmapped: page 1024 is lost. */
  lemma AbsentTableLosesOtherPage(states: seq<State>, ops: seq<Op>)
    requires Run(states, ops) && ops == [MapPage(1024), MapPage(1025), UnmapOp(0, 0, PAGESZ)]
    ensures Mapped(states[2], 0, 1024) && !Mapped(states[3], 0, 1024)
  {
    hide UnmapSpec, Walk, Inv;
    TwoPages(states, ops, 1024, 1025);
    var v := ViewOf(states[2], 0);
    assert FirstDir(v, 0) == FirstDir(v, 1) == 1;
    assert UnmapSize(PAGESZ) == PAGESZ;
    UnmapRemoves(states[2], states[3], 0, 0, PAGESZ, 1024);
    ViewPage(states[2], 0, 1024);
  }

  /** Two pages in neighbouring tables are enough for `addrspc_cleanup` to leave one of them mapped, and its
      table and directory allocated: the holes behind page 0 use up the size. */
  lemma CleanupLeavesPageMapped(states: seq<State>, ops: seq<Op>)
    requires Run(states, ops) && ops == [MapPage(0), MapPage(1025), UnmapOp(0, 0, TWO32 - 1)]
    ensures Mapped(states[2], 0, 1025) && Mapped(states[3], 0, 1025)
  {
    hide UnmapSpec, Walk, Inv;
    TwoPages(states, ops, 0, 1025);
    var v := ViewOf(states[2], 0);
    CostHoles(v, 1, 1024);
    assert PageCost(v, 0) == PAGESZ;
    assert Cost(v, 0, 1024) == PAGESZ + 1023 * HOLE;
    assert StopsCleanup(v, 1024);
    CleanupLeaves(states[2], states[3], 0, 1025);
    ViewPage(states[2], 0, 1025);
  }

  /** Unmapping the only pages of a space frees its directory and leaves the root entry pointing at it. */
  lemma EmptiedSpaceDangles(states: seq<State>, ops: seq<Op>)
    requires Run(states, ops) && ops == [MapPage(0), MapPage(1), UnmapOp(0, 0, 2 * PAGESZ)]
    ensures 0 in states[2].live && 0 !in states[3].live
    ensures IsPresent(states[3].mem[ROOTS], 0) && !Used(states[3], Idx(states[3].mem[ROOTS]))
  {
    hide Walk, Inv, NoEmptyTables, UnmapSpec;
    TwoPages(states, ops, 0, 1);
    var s, v := states[2], ViewOf(states[2], 0);
    assert First(v, 0) == 0 && UnmapSize(2 * PAGESZ) == 2 * PAGESZ;
    assert Left(v, 2 * PAGESZ, 0, 1) == Left(v, PAGESZ, 1, 1) == PAGESZ;
    forall p | p in v.pages ensures !Mapped(states[3], 0, p) {
      UnmapRemoves(s, states[3], 0, 0, 2 * PAGESZ, p);
    }
    DeadRootDangles(s, states[3], 0, 0, 2 * PAGESZ);
  }
}
