/** How the stores of the unmap code act on the view its reference semantics is stated on. */
module UnmapSteps {
  import opened Common
  import opened PageEntry
  import opened PageState
  import opened PageSteps
  import opened Sweep

  ghost function ViewOf(st: State, r: nat): View
    requires |st.mem| >= ROOTS && ROOTS + r < |st.mem|
  {
    View(st.mem[ROOTS + r] != EMPTY,
         set i | 0 <= i < ENTRIES && HasPresentBit(Pde(st, r, i)),
         set p | 0 <= p < VPAGES && Walk(st, r, p).Some?)
  }

  /** The address space a table page belongs to. */
  function TableSpace(st: State, k: nat): int
    requires Shape(st) && k < PHYSPAGES_MAX
  {
    SpaceOf(st, st.parent[k])
  }

  /** Tables are only freed, only of space `r`, and only of a level below `lvl`; at most `r` dies. */
  ghost predicate Shrunk(s: State, s': State, r: nat, lvl: nat) {
    && Shape(s) && Shape(s') && |s'.mem| == |s.mem|
    && s'.live <= s.live && s.live - s'.live <= {r} && (lvl > 0 ==> s'.live == s.live)
    && (forall k :: Used(s', k) ==> Used(s, k) && s'.kind[k] == s.kind[k] && s'.parent[k] == s.parent[k])
    && (forall k :: Used(s, k) && !Used(s', k) ==> s.kind[k] > lvl && TableSpace(s, k) == r)
  }

  /** In space `r` exactly the pages of `gone` lost their translation; nothing else changed. */
  ghost predicate Cleared(s: State, s': State, r: nat, gone: set<nat>)
    requires Shape(s) && Shape(s') && |s'.mem| == |s.mem| && s'.live <= s.live
  {
    forall r', p :: r' in s'.live && 0 <= p < VPAGES ==>
      Walk(s', r', p) == if r' == r && p in gone then None else Walk(s, r', p)
  }

  /** No root or directory entry but the one at `e` was written. */
  ghost predicate UpperFrame(s: State, s': State, e: nat)
    requires Shape(s)
  {
    && |s'.mem| == |s.mem|
    && forall a :: 0 <= a < |s.mem| && a != e && Lvl(s, a) <= 1 ==> s'.mem[a] == s.mem[a]
  }

  lemma ShrunkTrans(s0: State, s1: State, s2: State, r: nat, lvl: nat, lvl': nat)
    requires Inv(s0) && Inv(s1) && Shrunk(s0, s1, r, lvl) && Shrunk(s1, s2, r, lvl') && lvl >= lvl' && lvl > 0
    ensures Shrunk(s0, s2, r, lvl')
  {
    forall k | Used(s2, k) ensures Used(s0, k) && s2.kind[k] == s0.kind[k] && s2.parent[k] == s0.parent[k] {
      assert Used(s1, k);
    }
    forall k | Used(s0, k) && !Used(s2, k) ensures s0.kind[k] > lvl' && TableSpace(s0, k) == r {
      if Used(s1, k) {
        ShrunkSpace(s0, s1, r, lvl, k);
      }
    }
  }

  /** A surviving table stays in its space. */
  lemma ShrunkSpace(s: State, s': State, r: nat, lvl: nat, k: nat)
    requires Inv(s) && Inv(s') && Shrunk(s, s', r, lvl) && Used(s', k)
    ensures TableSpace(s', k) == TableSpace(s, k)
  {
    assert Used(s, k);
    var a := s.parent[k];
    if s.kind[k] == 2 {
      assert Lvl(s, a) == 1 && Lvl(s', a) == 1;
      assert Used(s', a / ENTRIES);
    }
  }

  lemma ClearedTrans(s0: State, s1: State, s2: State, r: nat, g1: set<nat>, g2: set<nat>)
    requires Shape(s0) && Shape(s1) && Shape(s2) && |s0.mem| == |s1.mem| == |s2.mem| && s2.live <= s1.live <= s0.live
    requires Cleared(s0, s1, r, g1) && Cleared(s1, s2, r, g2)
    ensures Cleared(s0, s2, r, g1 + g2)
  {
    hide Walk;
  }

  /** An entry is present in memory exactly when the view of its space has it. */
  lemma PresentInView(s: State, e: nat)
    requires Inv(s) && e < |s.mem| && Lvl(s, e) <= 2
    ensures 0 <= SpaceOf(s, e) && SpaceOf(s, e) in s.live && BaseOk(Lvl(s, e), Base(s, e))
    ensures Has(ViewOf(s, SpaceOf(s, e)), Lvl(s, e), Base(s, e)) == IsPresent(s.mem[e], Lvl(s, e))
  {
    hide Owned, Linked, RightsCovered, RootsPlain;
    if Lvl(s, e) == 0 {
      RootLevel(s, e);
    } else if Lvl(s, e) == 1 {
      Level1Slot(s, e);
      AddrSplit(e % ENTRIES, 0);
    } else {
      Level2Slot(s, e);
    }
  }

  /** Clearing the present bit of a leaf. */
  lemma ClearLeaf(s: State, a: nat)
    requires Inv(s) && a < |s.mem| && Lvl(s, a) == 2 && NoEmptyTablesBut(s, a / ENTRIES)
    ensures var s' := s.(mem := s.mem[a := ClearPresent(s.mem[a])]);
            && Inv(s') && 0 <= SpaceOf(s, a)
            && Shrunk(s, s', SpaceOf(s, a), 2) && Cleared(s, s', SpaceOf(s, a), {Base(s, a)})
            && UpperFrame(s, s', a) && NoEmptyTablesBut(s', a / ENTRIES)
  {
    var e := ClearPresent(s.mem[a]);
    var s' := s.(mem := s.mem[a := e]);
    assert !HasPresentBit(e);
    StoreLeafInv(s, a, e);
    SpaceIsLive(s, a);
    forall r, p | r in s'.live && 0 <= p < VPAGES
      ensures Walk(s', r, p) == if r == SpaceOf(s, a) && p in {Base(s, a)} then None else Walk(s, r, p)
    {
      StoreLeafWalk(s, a, e, r, p);
    }
    ClearLeafNonEmpty(s, a, e);
  }

  lemma ClearLeafNonEmpty(s: State, a: nat, e: Pme)
    requires Inv(s) && a < |s.mem| && Lvl(s, a) == 2 && NoEmptyTablesBut(s, a / ENTRIES)
    requires Shape(s.(mem := s.mem[a := e]))
    ensures NoEmptyTablesBut(s.(mem := s.mem[a := e]), a / ENTRIES)
  {
    var s' := s.(mem := s.mem[a := e]);
    forall x | Used(s', x) && s'.kind[x] == 2 && x != a / ENTRIES ensures !TableEmpty(s', x) {
      assert Used(s, x) && !TableEmpty(s, x);
      var b :| 0 <= b < ROOTS && b / ENTRIES == x && HasPresentBit(s.mem[b]);
      assert s'.mem[b] == s.mem[b];
    }
  }

  /** A child call leaves the part of the view after its own region alone. */
  lemma ViewStep(s: State, s': State, e: nat, gone: set<nat>)
    requires Inv(s) && Inv(s') && e < |s.mem| && 1 <= Lvl(s, e) <= 2
    requires 0 <= SpaceOf(s, e) && Shrunk(s, s', SpaceOf(s, e), Lvl(s, e))
    requires Cleared(s, s', SpaceOf(s, e), gone) && UpperFrame(s, s', e)
    requires forall p :: p in gone ==> p < Base(s, e) + Cover(Lvl(s, e))
    ensures SpaceOf(s, e) in s.live
    ensures Agree(ViewOf(s, SpaceOf(s, e)), ViewOf(s', SpaceOf(s, e)), Base(s, e) + Cover(Lvl(s, e)), VPAGES)
  {
    hide Walk, Owned, Linked, RightsCovered, RootsPlain;
    SpaceIsLive(s, e);
    var r := SpaceOf(s, e);
    assert Lvl(s, ROOTS + r) == 0;
    assert s'.mem[ROOTS + r] == s.mem[ROOTS + r];
    forall i: nat | Base(s, e) + Cover(Lvl(s, e)) <= i * ENTRIES < VPAGES
      ensures i in ViewOf(s, r).dirs <==> i in ViewOf(s', r).dirs
    {
      assert DirSlot(s', r, i) == DirSlot(s, r, i);
      if DirSlot(s, r, i) >= 0 {
        DirSlotPlace(s, r, i);
        assert DirSlot(s, r, i) != e;
      }
    }
  }

  // ---------------------------------------------------------------------------------------------
  // The loop over the table below entry `e`

  /** Effect of a call for entry `e`: the map shrank, and lost exactly the pages of the reference sweep. */
  ghost predicate Unmapped(s0: State, c0: Cur, s: State, c: Cur, lvl: nat, e: nat) {
    && Shape(s0) && lvl <= 2 && 0 <= SpaceOf(s0, e) && SpaceOf(s0, e) in s0.live && IndexOk(c0)
    && var r := SpaceOf(s0, e);
       var w := SweepEntry(ViewOf(s0, r), lvl, Base(s0, e), c0);
       Inv(s) && Shrunk(s0, s, r, lvl) && Cleared(s0, s, r, w.pages) && c == w.cur
  }

  /** An entry of a root or of a directory, of a live space. */
  ghost predicate UpperEntry(s: State, lvl: nat, e: nat) {
    && lvl <= 1 && Inv(s) && e < |s.mem| && Lvl(s, e) == lvl
    && 0 <= SpaceOf(s, e) && SpaceOf(s, e) in s.live && BaseOk(lvl, Base(s, e))
  }

  /** The loop over the table below `e` has removed `gone`; what it still has to do is a sweep from `c` on. */
  ghost predicate Sweeping(s0: State, c0: Cur, s: State, c: Cur, gone: set<nat>, last: bool, lvl: nat, e: nat) {
    && UpperEntry(s0, lvl, e) && IndexOk(c0) && IndexOk(c)
    && Inv(s) && Shrunk(s0, s, SpaceOf(s0, e), lvl + 1) && Cleared(s0, s, SpaceOf(s0, e), gone)
    && s.mem[e] == s0.mem[e]
    && SweepLeft(ViewOf(s0, SpaceOf(s0, e)), ViewOf(s, SpaceOf(s0, e)), c0, c, gone, last, lvl, Base(s0, e))
  }

  ghost predicate SweepLeft(v0: View, v: View, c0: Cur, c: Cur, gone: set<nat>, last: bool, lvl: nat, base: nat)
    requires lvl <= 1 && IndexOk(c0) && IndexOk(c)
  {
    var total, rest := SweepTable(v0, lvl, base, c0), SweepTable(v0, lvl, base, c);
    if last then gone == total.pages && c == total.cur
    else
      && gone + rest.pages == total.pages && rest.cur == total.cur
      && Agree(v0, v, base + ChildIdx(c, lvl) * Cover(lvl + 1), base + Cover(lvl))
  }

  lemma SweepLeftStep(v0: View, v1: View, v2: View, c0: Cur, c1: Cur, gone: set<nat>, w: Result, lvl: nat, base: nat)
    requires lvl <= 1 && IndexOk(c0) && IndexOk(c1) && c1.size != 0 && BaseOk(lvl, base)
    requires SweepLeft(v0, v1, c0, c1, gone, false, lvl, base)
    requires w == SweepEntry(v0, lvl + 1, base + ChildIdx(c1, lvl) * Cover(lvl + 1), c1)
    requires Agree(v1, v2, base + (ChildIdx(c1, lvl) + 1) * Cover(lvl + 1), VPAGES) && base + Cover(lvl) <= VPAGES
    ensures IndexOk(w.cur) && ChildIdx(w.cur, lvl) == ChildIdx(c1, lvl)
    ensures SweepLeft(v0, v2, c0, Advance(w.cur, lvl), gone + w.pages, ChildIdx(c1, lvl) + 1 == ENTRIES, lvl, base)
  {
    hide SweepEntry, SweepTable;
    SweepTableStep(v0, lvl, base, c1);
    var rest := SweepTable(v0, lvl, base, Advance(w.cur, lvl));
    if ChildIdx(c1, lvl) + 1 < ENTRIES {
      assert gone + w.pages + rest.pages == gone + (w.pages + rest.pages);
    }
  }

  lemma ShrunkPlace(s0: State, s1: State, e: nat, lvl: nat)
    requires UpperEntry(s0, lvl, e) && Inv(s1) && Shrunk(s0, s1, SpaceOf(s0, e), lvl + 1)
    ensures UpperEntry(s1, lvl, e) && SpaceOf(s1, e) == SpaceOf(s0, e) && Base(s1, e) == Base(s0, e)
    ensures s1.live == s0.live && Base(s0, e) + Cover(lvl) <= VPAGES
  {
    if lvl == 1 { assert Used(s0, e / ENTRIES) && Used(s1, e / ENTRIES); }
  }

  /** Views that agree on the rest of a table agree on what its next entry covers. */
  lemma ChildAgree(v: View, v': View, lvl: nat, base: nat, i: nat)
    requires lvl <= 1 && i < ENTRIES && Agree(v, v', base + i * Cover(lvl + 1), base + Cover(lvl))
    ensures Agree(v, v', base + i * Cover(lvl + 1), base + i * Cover(lvl + 1) + Cover(lvl + 1))
  {
    assert i * Cover(lvl + 1) + Cover(lvl + 1) <= Cover(lvl);
  }

  /** The child call of one turn does what the reference sweep of the whole table asks for. */
  lemma ChildSweep(s0: State, c0: Cur, s1: State, c1: Cur, gone: set<nat>, lvl: nat, e: nat, k: nat)
    requires Sweeping(s0, c0, s1, c1, gone, false, lvl, e)
    requires Used(s0, k) && s0.kind[k] == lvl + 1 && s0.parent[k] == e
    ensures var r, a := SpaceOf(s0, e), k * ENTRIES + ChildIdx(c1, lvl);
            && Shape(s0) && Inv(s1) && |s1.mem| == |s0.mem| && 0 <= r && ROOTS + r < |s0.mem| && IndexOk(c1)
            && Used(s1, k) && s1.kind[k] == lvl + 1 && s1.parent[k] == e
            && a < ROOTS && Lvl(s1, a) == lvl + 1 && SpaceOf(s1, a) == r && a / ENTRIES == k
            && Base(s1, a) == Base(s0, e) + ChildIdx(c1, lvl) * Cover(lvl + 1)
            && SweepEntry(ViewOf(s0, r), lvl + 1, Base(s1, a), c1)
               == SweepEntry(ViewOf(s1, r), lvl + 1, Base(s1, a), c1)
  {
    hide Walk, SweepEntry, SweepTable, Cleared, Pde, ViewOf, Owned, Linked, RightsCovered, RootsPlain;
    var r, base, a := SpaceOf(s0, e), Base(s0, e), k * ENTRIES + ChildIdx(c1, lvl);
    assert Used(s1, k);
    ShrunkPlace(s0, s1, e, lvl);
    ChildPlace(s1, e, k, ChildIdx(c1, lvl));
    assert BaseOk(lvl + 1, Base(s1, a)) by { PresentInView(s1, a); }
    ChildAgree(ViewOf(s0, r), ViewOf(s1, r), lvl, base, ChildIdx(c1, lvl));
    hide Agree, Base, SpaceOf;
    SweepFrame(ViewOf(s0, r), ViewOf(s1, r), lvl + 1, Base(s1, a), c1);
  }

  /** State of the loop and effect of the child call of its next turn. */
  ghost predicate Turn(s0: State, c0: Cur, s1: State, c1: Cur, gone: set<nat>, s2: State, c2: Cur,
                       lvl: nat, e: nat, k: nat)
  {
    && Used(s0, k) && k < PHYSPAGES_MAX && Sweeping(s0, c0, s1, c1, gone, false, lvl, e) && c1.size != 0
    && s0.kind[k] == lvl + 1 && s0.parent[k] == e
    && Unmapped(s1, c1, s2, c2, lvl + 1, k * ENTRIES + ChildIdx(c1, lvl))
    && UpperFrame(s1, s2, k * ENTRIES + ChildIdx(c1, lvl))
  }

  /** What the child call did to the map. */
  lemma TurnShrunk(s0: State, c0: Cur, s1: State, c1: Cur, gone: set<nat>, s2: State, c2: Cur, lvl: nat, e: nat, k: nat,
                   r: nat, w: Result)
    requires Shape(s0) && |s1.mem| == |s0.mem| && ROOTS + r < |s0.mem| && lvl <= 1 && IndexOk(c1) && r == SpaceOf(s0, e)
    requires w == SweepEntry(ViewOf(s1, r), lvl + 1, Base(s0, e) + ChildIdx(c1, lvl) * Cover(lvl + 1), c1)
    requires Turn(s0, c0, s1, c1, gone, s2, c2, lvl, e, k)
    ensures Shape(s2) && |s2.mem| == |s1.mem| && s2.live <= s1.live <= s0.live && e < |s0.mem| && Inv(s1) && Inv(s2)
    ensures Shrunk(s0, s2, r, lvl + 1) && Cleared(s0, s2, r, gone + w.pages)
    ensures Shrunk(s1, s2, r, lvl + 1) && Cleared(s1, s2, r, w.pages) && c2 == w.cur && IndexOk(c2)
    ensures Used(s2, k) && s2.kind[k] == lvl + 1 && s2.mem[e] == s0.mem[e]
    ensures lvl == 1 && UpperFrame(s0, s1, e) ==> UpperFrame(s0, s2, e)
  {
    hide Walk, SweepEntry, Pde, SweepLeft, ViewOf, Base, Cleared, Owned, Linked, RightsCovered, RootsPlain;
    ChildSweep(s0, c0, s1, c1, gone, lvl, e, k);
    ShrunkPlace(s0, s1, e, lvl);
    ClearedTrans(s0, s1, s2, r, gone, w.pages);
    ShrunkTrans(s0, s1, s2, r, lvl + 1, lvl + 1);
  }

  /** The view behind what the child call covers is as before. */
  lemma ViewBehind(s1: State, c1: Cur, s2: State, lvl: nat, a: nat, r: nat, w: Result)
    requires Inv(s1) && Inv(s2) && a < |s1.mem| && 1 <= lvl <= 2 && Lvl(s1, a) == lvl && IndexOk(c1)
    requires SpaceOf(s1, a) == r && ROOTS + r < |s1.mem| && w == SweepEntry(ViewOf(s1, r), lvl, Base(s1, a), c1)
    requires Shrunk(s1, s2, r, lvl) && Cleared(s1, s2, r, w.pages) && UpperFrame(s1, s2, a)
    ensures Agree(ViewOf(s1, r), ViewOf(s2, r), Base(s1, a) + Cover(lvl), VPAGES)
  {
    hide SweepEntry, ViewOf, Agree, Owned, Linked, RightsCovered, RootsPlain, Cleared, UpperFrame;
    SweepWithin(ViewOf(s1, r), lvl, Base(s1, a), c1);
    ViewStep(s1, s2, a, w.pages);
  }

  /** One turn of the loop. */
  lemma SweepingStep(s0: State, c0: Cur, s1: State, c1: Cur, gone: set<nat>, s2: State, c2: Cur,
                     lvl: nat, e: nat, k: nat,
                     r: nat, w: Result)
    requires Shape(s0) && |s1.mem| == |s0.mem| && ROOTS + r < |s0.mem| && lvl <= 1 && IndexOk(c1) && r == SpaceOf(s0, e)
    requires w == SweepEntry(ViewOf(s1, r), lvl + 1, Base(s0, e) + ChildIdx(c1, lvl) * Cover(lvl + 1), c1)
    requires Turn(s0, c0, s1, c1, gone, s2, c2, lvl, e, k)
    ensures c2 == w.cur && IndexOk(c2) && Used(s2, k) && s2.kind[k] == lvl + 1
    ensures lvl == 1 && UpperFrame(s0, s1, e) ==> UpperFrame(s0, s2, e)
    ensures Sweeping(s0, c0, s2, Advance(c2, lvl), gone + w.pages, ChildIdx(c1, lvl) + 1 == ENTRIES, lvl, e)
  {
    hide SweepEntry, SweepTable, Agree, SweepLeft, ViewOf, Base, Inv, Shrunk, Cleared, SpaceOf, Lvl, UpperFrame,
         Unmapped;
    ChildSweep(s0, c0, s1, c1, gone, lvl, e, k);
    ShrunkPlace(s0, s1, e, lvl);
    TurnShrunk(s0, c0, s1, c1, gone, s2, c2, lvl, e, k, r, w);
    ViewBehind(s1, c1, s2, lvl + 1, k * ENTRIES + ChildIdx(c1, lvl), r, w);
    SweepLeftStep(ViewOf(s0, r), ViewOf(s1, r), ViewOf(s2, r), c0, c1, gone, w, lvl, Base(s0, e));
  }

  /** Nothing to do for an absent entry, except for the size the code takes it to cover. */
  lemma SkipAbsent(s: State, c: Cur, lvl: nat, e: nat)
    requires Inv(s) && lvl <= 2 && e < |s.mem| && Lvl(s, e) == lvl && IndexOk(c) && !IsPresent(s.mem[e], lvl)
    ensures Unmapped(s, c, s, c.(size := SkipSize(lvl, c.size)), lvl, e) && UpperFrame(s, s, e)
  {
    hide Walk;
    PresentInView(s, e);
  }

  lemma UnmapLeaf(s: State, c: Cur, e: nat)
    requires Inv(s) && e < |s.mem| && Lvl(s, e) == 2 && IndexOk(c) && HasPresentBit(s.mem[e])
    requires NoEmptyTablesBut(s, e / ENTRIES)
    ensures var s' := s.(mem := s.mem[e := ClearPresent(s.mem[e])]);
            && Unmapped(s, c, s', c.(size := (c.size + TWO32 - PAGESZ) % TWO32), 2, e)
            && UpperFrame(s, s', e) && NoEmptyTablesBut(s', e / ENTRIES)
  {
    hide Walk;
    PresentInView(s, e);
    ClearLeaf(s, e);
  }

  lemma StartSweeping(s: State, c: Cur, lvl: nat, e: nat)
    requires Inv(s) && lvl <= 1 && e < |s.mem| && Lvl(s, e) == lvl && IndexOk(c)
    ensures Sweeping(s, c, s, c, {}, false, lvl, e)
  {
    hide Walk, SweepTable;
    PresentInView(s, e);
  }

  lemma SweepingDone(s0: State, c0: Cur, s: State, c: Cur, gone: set<nat>, lvl: nat, e: nat)
    requires Sweeping(s0, c0, s, c, gone, false, lvl, e) && c.size == 0
    ensures Sweeping(s0, c0, s, c, gone, true, lvl, e)
  {
    hide Walk, SweepTable, Cleared, Shrunk;
    assert Shape(s0);
    hide Inv;
    SweepTableStep(ViewOf(s0, SpaceOf(s0, e)), lvl, Base(s0, e), c);
    assert gone + {} == gone;
  }

  /** Freeing the empty table below `e` changes no translation of a space that stays live. */
  lemma FreeEmpty(s: State, lvl: nat, e: nat)
    requires UpperEntry(s, lvl, e) && Freeable(s, e)
    ensures var s' := Freed(s, e);
            && Inv(s') && Shrunk(s, s', SpaceOf(s, e), lvl) && Cleared(s, s', SpaceOf(s, e), {})
            && (lvl == 1 ==> UpperFrame(s, s', e))
  {
    hide Walk, Owned, RightsCovered, RootsPlain;
    FreeTable(s, e);
    var s' := Freed(s, e);
    forall r', p | r' in s'.live && 0 <= p < VPAGES ensures Walk(s', r', p) == Walk(s, r', p) {
      FreeTableWalk(s, e, r', p);
    }
    assert s.parent[Idx(s.mem[e])] == e;
  }

  /** The loop is over and its table keeps an entry. */
  lemma KeepTable(s0: State, c0: Cur, s: State, c: Cur, gone: set<nat>, lvl: nat, e: nat)
    requires Sweeping(s0, c0, s, c, gone, true, lvl, e) && IsPresent(s0.mem[e], lvl)
    ensures Unmapped(s0, c0, s, c, lvl, e)
  {
    hide Walk, SweepTable, Cleared;
    PresentInView(s0, e);
  }

  /** The loop is over and its table, now empty, is freed. */
  lemma DropTable(s0: State, c0: Cur, s: State, c: Cur, gone: set<nat>, lvl: nat, e: nat)
    requires Sweeping(s0, c0, s, c, gone, true, lvl, e) && IsPresent(s0.mem[e], lvl) && Freeable(s, e)
    ensures Unmapped(s0, c0, Freed(s, e), c, lvl, e)
  {
    hide Walk, SweepTable, Cleared, SpaceOf, Lvl, TableEmpty;
    KeepTable(s0, c0, s, c, gone, lvl, e);
    ShrunkPlace(s0, s, e, lvl);
    FreeEmpty(s, lvl, e);
    var w := SweepEntry(ViewOf(s0, SpaceOf(s0, e)), lvl, Base(s0, e), c0);
    ClearedTrans(s0, s, Freed(s, e), SpaceOf(s0, e), w.pages, {});
    assert w.pages + {} == w.pages;
    ShrunkTrans(s0, s, Freed(s, e), SpaceOf(s0, e), lvl + 1, lvl);
  }

  lemma FreedNonEmpty(s: State, e: nat)
    requires Freeable(s, e) && NoEmptyTablesBut(s, Idx(s.mem[e])) && Shape(Freed(s, e))
    ensures NoEmptyTables(Freed(s, e))
  {
    var s' := Freed(s, e);
    forall x | Used(s', x) && s'.kind[x] == 2 ensures !TableEmpty(s', x) {
      assert Used(s, x) && x != Idx(s.mem[e]) && !TableEmpty(s, x);
      var b :| 0 <= b < ROOTS && b / ENTRIES == x && HasPresentBit(s.mem[b]);
      assert Lvl(s, b) == 2;
      assert s'.mem[b] == s.mem[b];
    }
  }

  // ---------------------------------------------------------------------------------------------
  // When the directory itself is freed

  lemma EmptyDirectory(s: State, r: nat, p: nat)
    requires Inv(s) && r in s.live && p < VPAGES && s.mem[ROOTS + r] != EMPTY
    requires Used(s, Idx(s.mem[ROOTS + r])) && TableEmpty(s, Idx(s.mem[ROOTS + r]))
    ensures Walk(s, r, p) == None
  {
    PageSplit(p);
    if LeafAddr(s, r, p) >= 0 {
      LeafSlot(s, r, p);
      DirSlotPlace(s, r, p / ENTRIES);
    }
  }

  /** A present entry of a directory leads to a page table in use. */
  lemma NonEmptyDirectoryEntry(s: State, r: nat) returns (b: nat)
    requires Inv(s) && r in s.live && s.mem[ROOTS + r] != EMPTY
    requires Used(s, Idx(s.mem[ROOTS + r])) && !TableEmpty(s, Idx(s.mem[ROOTS + r]))
    ensures b < ROOTS && Lvl(s, b) == 1 && SpaceOf(s, b) == r && HasPresentBit(s.mem[b])
    ensures Used(s, Idx(s.mem[b])) && s.kind[Idx(s.mem[b])] == 2 && s.parent[Idx(s.mem[b])] == b
  {
    hide RightsCovered, RootsPlain;
    DirOf(s, r);
    var a :| 0 <= a < ROOTS && a / ENTRIES == Idx(s.mem[ROOTS + r]) && HasPresentBit(s.mem[a]);
    b := a;
    assert Lvl(s, b) == 1;
    Level1Slot(s, b);
  }

  lemma NonEmptyDirectory(s: State, r: nat) returns (p: nat)
    requires Inv(s) && r in s.live && s.mem[ROOTS + r] != EMPTY && NoEmptyTables(s)
    requires Used(s, Idx(s.mem[ROOTS + r])) && !TableEmpty(s, Idx(s.mem[ROOTS + r]))
    ensures p < VPAGES && Walk(s, r, p).Some?
  {
    var b := NonEmptyDirectoryEntry(s, r);
    hide RightsCovered, RootsPlain, Owned, Linked;
    var t := Idx(s.mem[b]);
    assert !TableEmpty(s, t);
    var a :| 0 <= a < ROOTS && a / ENTRIES == t && HasPresentBit(s.mem[a]);
    assert Lvl(s, a) == 2;
    Level2Slot(s, a);
    p := Base(s, a);
  }

  /** The view of space `r` keeps a page that the sweep does not remove. */
  ghost predicate Survives(s0: State, c0: Cur, r: nat)
    requires |s0.mem| >= ROOTS && ROOTS + r < |s0.mem| && IndexOk(c0)
  {
    exists p :: p in ViewOf(s0, r).pages && p !in SweepEntry(ViewOf(s0, r), 0, 0, c0).pages
  }

  /** The directory is left empty exactly when the sweep removes every page of the space. */
  lemma DirectoryFate(s0: State, c0: Cur, s: State, c: Cur, r: nat)
    requires Unmapped(s0, c0, s, c, 0, ROOTS + r) && r in s0.live && r in s.live && NoEmptyTables(s)
    requires s.mem[ROOTS + r] != EMPTY && Used(s, Idx(s.mem[ROOTS + r]))
    ensures TableEmpty(s, Idx(s.mem[ROOTS + r])) <==> !Survives(s0, c0, r)
  {
    hide SweepEntry, Walk;
    assert SpaceOf(s0, ROOTS + r) == r && Base(s0, ROOTS + r) == 0;
    var w := SweepEntry(ViewOf(s0, r), 0, 0, c0);
    if TableEmpty(s, Idx(s.mem[ROOTS + r])) {
      forall p | p in ViewOf(s0, r).pages ensures p in w.pages {
        EmptyDirectory(s, r, p);
      }
    } else {
      var p := NonEmptyDirectory(s, r);
      assert p in ViewOf(s0, r).pages && p !in w.pages;
    }
  }

  // ---------------------------------------------------------------------------------------------
  // What a whole call of addrspc_map and of addrspc_unmap does

  function PageCount(size: Word): nat {
    AlignUp(size) / PAGESZ
  }

  /** How many pages a call of addrspc_map is asked for: those of its range that lie below 2^32. */
  function Wanted(vaddr: Word, size: Word): nat {
    Min(PageCount(size), VPAGES - vaddr / PAGESZ)
  }

  /** `m` pages of the range are mapped: all of them, unless the table pages ran out. Then the next page, or page
      `vaddr` of a space without a directory, has no table. */
  ghost predicate MapSpec(s: State, s': State, r: nat, vaddr: Word, paddr: Word, size: Word, flags: Attr,
                          res: int, m: nat)
  {
    && Inv(s') && NoEmptyTables(s') && Grew(s, s') && RootsKept(s, s', ROOTS + r)
    && RangeMapped(s, s', r, vaddr / PAGESZ, m, AlignDown(paddr), flags)
    && m <= Wanted(vaddr, size)
    && ROOTS + r < |s'.mem|
    && (res == 0 ==> m == Wanted(vaddr, size) && s'.mem[ROOTS + r] != EMPTY)
    && (res != 0 ==>
          && res == -ENOMEM && (forall i :: 0 <= i < PHYSPAGES_MAX ==> Used(s', i))
          && TableMissing(s', r, vaddr / PAGESZ + m)
          && (m < Wanted(vaddr, size) || s'.mem[ROOTS + r] == EMPTY))
  }

  /** Sizes within a page of the maximum are not rounded. */
  function UnmapSize(size: Word): Word {
    if size < TWO32 - 1 - PAGESZ then AlignUp(size) else size
  }

  function StartCur(vaddr: Word, size: Word): Cur {
    Cur(vaddr / PAGESZ / ENTRIES, (vaddr / PAGESZ) % ENTRIES, 0, size)
  }

  /** The root entry of a space that died is as it was, so it still reads as present, and the page it points
      to is free. */
  ghost predicate Dangling(s: State, s': State, e: nat) {
    e < |s.mem| && e < |s'.mem| && s'.mem[e] == s.mem[e] != EMPTY && !Used(s', Idx(s'.mem[e]))
  }

  /** The space loses exactly the pages of the reference sweep; it dies when none is left. */
  ghost predicate UnmapSpec(s: State, s': State, r: nat, vaddr: Word, size: Word)
  {
    && Shape(s) && r in s.live
    && var c := StartCur(vaddr, UnmapSize(size));
       && Inv(s') && NoEmptyTables(s') && Shrunk(s, s', r, 0)
       && IndexOk(c)
       && Cleared(s, s', r, SweepEntry(ViewOf(s, r), 0, 0, c).pages)
       && (r in s'.live <==> s.mem[ROOTS + r] == EMPTY || Survives(s, c, r))
       && (r !in s'.live ==> Dangling(s, s', ROOTS + r))
  }

  lemma WholeUnmap(s: State, s': State, c: Cur, r: nat, vaddr: Word, size: Word)
    requires Shape(s) && r in s.live && IndexOk(StartCur(vaddr, UnmapSize(size)))
    requires Unmapped(s, StartCur(vaddr, UnmapSize(size)), s', c, 0, ROOTS + r) && NoEmptyTables(s')
    requires r in s'.live <==> s.mem[ROOTS + r] == EMPTY || Survives(s, StartCur(vaddr, UnmapSize(size)), r)
    requires r !in s'.live ==> Dangling(s, s', ROOTS + r)
    ensures UnmapSpec(s, s', r, vaddr, size)
  {
    hide Inv, NoEmptyTables, Survives, Dangling, Cleared, Shrunk, SweepEntry, ViewOf, StartCur;
    assert SpaceOf(s, ROOTS + r) == r && Base(s, ROOTS + r) == 0;
  }

  lemma WholeMap(s: State, c0: Cur, s': State, c: Cur, r: nat, vaddr: Word, paddr: Word, size: Word, flags: Attr,
                 res: int, m: nat)
    requires Inv(s) && r in s.live
    requires MapProgress(s, c0, s', c, m, 0, ROOTS + r, flags) && NoEmptyTables(s')
    requires res == 0 ==> MapComplete(c0, c, m, 0)
    requires Start(c0, 0) == vaddr / PAGESZ && c0.paddr == AlignDown(paddr) && c0.size == AlignUp(size)
    requires res == 0 ==> s'.mem[ROOTS + r] != EMPTY
    requires res != 0 ==> res == -ENOMEM && MapStuck(s, c0, s', c, m, 0, ROOTS + r)
    requires res != 0 ==> forall i :: 0 <= i < PHYSPAGES_MAX ==> Used(s', i)
    ensures MapSpec(s, s', r, vaddr, paddr, size, flags, res, m)
  {
    hide RangeMapped, Inv, Grew, NoEmptyTables;
    assert SpaceOf(s, ROOTS + r) == r && Base(s, ROOTS + r) == 0 by {
      assert Lvl(s, ROOTS + r) == 0;
    }
  }

  lemma IdentityMap(s: State, s': State, r: nat, m: nat)
    requires MapSpec(s, s', r, 0, 0, 0x40_0000, 0, 0, m) && r in s.live
    ensures forall p :: 0 <= p < ENTRIES ==> Walk(s', r, p) == Some(Pme(p, PRESENT))
  {
    hide Walk, NoEmptyTables;
    assert PageCount(0x40_0000) == ENTRIES && m == ENTRIES;
    forall p | 0 <= p < ENTRIES ensures Walk(s', r, p) == Some(Pme(p, PRESENT)) {
      assert LeafFor(0, p, 0) == Pme(p, PRESENT);
    }
  }

  /** The loop over the table is over: the table is kept, or freed when it is empty. */
  lemma FinishTable(s0: State, c0: Cur, s: State, c: Cur, gone: set<nat>, lvl: nat, e: nat, k: nat)
    requires Sweeping(s0, c0, s, c, gone, true, lvl, e) && IsPresent(s0.mem[e], lvl)
    requires k == Idx(s0.mem[e]) && Used(s, k) && s.kind[k] == lvl + 1
    requires NoEmptyTablesBut(s, if lvl == 1 then k else PHYSPAGES_MAX)
    ensures TableEmpty(s, k) ==> Freeable(s, e)
    ensures var s' := if TableEmpty(s, k) then Freed(s, e) else s;
            && Unmapped(s0, c0, s', c, lvl, e) && NoEmptyTables(s')
            && (lvl == 1 && UpperFrame(s0, s, e) ==> UpperFrame(s0, s', e))
            && (lvl == 0 ==> (e - ROOTS in s'.live <==> Survives(s0, c0, e - ROOTS)))
            && (lvl == 0 && e - ROOTS !in s'.live ==> Dangling(s0, s', e))
  {
    hide Walk, SweepTable, Cleared, SweepEntry, SpaceOf, Base, Survives, ViewOf, RightsCovered, Linked;
    assert lvl == 0 ==> e >= ROOTS;
    KeepTable(s0, c0, s, c, gone, lvl, e);
    ShrunkPlace(s0, s, e, lvl);
    if lvl == 0 {
      DirectoryFate(s0, c0, s, c, e - ROOTS);
    }
    if TableEmpty(s, k) {
      if lvl == 0 { PlainRootFlags(s.mem[e], 0); }
      DropTable(s0, c0, s, c, gone, lvl, e);
      FreedNonEmpty(s, e);
    }
  }
}
