/** What each single store of the map and unmap code does to the invariant and to the walk. */
module PageSteps {
  import opened Common
  import opened PageEntry
  import opened PageState

  lemma AddrSplit(k: nat, j: nat)
    requires j < ENTRIES
    ensures (k * ENTRIES + j) / ENTRIES == k && (k * ENTRIES + j) % ENTRIES == j
  {
  }

  lemma PageSplit(p: nat)
    requires p < VPAGES
    ensures p / ENTRIES < ENTRIES && p % ENTRIES < ENTRIES && p == (p / ENTRIES) * ENTRIES + p % ENTRIES
  {
  }

  /** Only root entries of live spaces are at level 0. */
  lemma RootLevel(st: State, e: nat)
    requires Inv(st) && e < |st.mem| && Lvl(st, e) == 0
    ensures e >= ROOTS && e - ROOTS in st.live
  {
  }

  /** The directory of a live space, when it has one. */
  lemma DirOf(st: State, r: nat)
    requires Inv(st) && r in st.live && st.mem[ROOTS + r] != EMPTY
    ensures var d := Idx(st.mem[ROOTS + r]);
            Used(st, d) && st.kind[d] == 1 && st.parent[d] == ROOTS + r
  {
    assert Lvl(st, ROOTS + r) == 0;
  }

  /** A directory slot belongs to one index of one space only. */
  lemma DirSlotPlace(st: State, r: nat, i: nat)
    requires Inv(st) && r in st.live && i < ENTRIES && DirSlot(st, r, i) >= 0
    ensures st.mem[ROOTS + r] != EMPTY
    ensures var b := DirSlot(st, r, i);
            && b < ROOTS && Lvl(st, b) == 1 && SpaceOf(st, b) == r && b % ENTRIES == i
            && b / ENTRIES == Idx(st.mem[ROOTS + r])
  {
    DirOf(st, r);
    AddrSplit(Idx(st.mem[ROOTS + r]), i);
  }

  /** The table behind directory slot `i` of a live space, when it has one. */
  lemma TableOf(st: State, r: nat, i: nat)
    requires Inv(st) && r in st.live && i < ENTRIES && HasPresentBit(Pde(st, r, i))
    ensures DirSlot(st, r, i) >= 0
    ensures var t := Idx(Pde(st, r, i));
            Used(st, t) && st.kind[t] == 2 && st.parent[t] == DirSlot(st, r, i)
  {
    DirSlotPlace(st, r, i);
  }

  /** An entry of a directory in use is a directory slot of a live space. */
  lemma Level1Slot(st: State, a: nat)
    requires Inv(st) && a < |st.mem| && Lvl(st, a) == 1
    ensures a < ROOTS
    ensures var r := SpaceOf(st, a);
            0 <= r && r in st.live && DirSlot(st, r, a % ENTRIES) == a
  {
    var k := a / ENTRIES;
    assert Used(st, k);
    assert Lvl(st, st.parent[k]) == 0;
    assert a == k * ENTRIES + a % ENTRIES;
  }

  /** An entry of a page table in use is the leaf of page `Base` of a live space. */
  lemma Level2Slot(st: State, a: nat)
    requires Inv(st) && a < |st.mem| && Lvl(st, a) == 2
    ensures a < ROOTS
    ensures var r, b := SpaceOf(st, a), st.parent[a / ENTRIES];
            && 0 <= r && r in st.live
            && b < ROOTS && Lvl(st, b) == 1 && SpaceOf(st, b) == r
            && HasPresentBit(st.mem[b]) && Idx(st.mem[b]) == a / ENTRIES
            && Base(st, a) < VPAGES
            && Base(st, a) / ENTRIES == b % ENTRIES
            && Pde(st, r, b % ENTRIES) == st.mem[b]
            && LeafAddr(st, r, Base(st, a)) == a
  {
    var k := a / ENTRIES;
    assert Used(st, k);
    var b := st.parent[k];
    assert Lvl(st, b) == 1;
    Level1Slot(st, b);
    AddrSplit(b % ENTRIES, a % ENTRIES);
    assert a == k * ENTRIES + a % ENTRIES;
  }

  /** A leaf address belongs to one page of one space only. */
  lemma LeafSlot(st: State, r: nat, p: nat)
    requires Inv(st) && r in st.live && p < VPAGES && LeafAddr(st, r, p) >= 0
    ensures DirSlot(st, r, p / ENTRIES) >= 0 && HasPresentBit(Pde(st, r, p / ENTRIES))
    ensures var a := LeafAddr(st, r, p);
            && a < ROOTS && Lvl(st, a) == 2 && SpaceOf(st, a) == r && Base(st, a) == p
            && a / ENTRIES == Idx(Pde(st, r, p / ENTRIES))
            && st.parent[a / ENTRIES] == DirSlot(st, r, p / ENTRIES)
  {
    PageSplit(p);
    TableOf(st, r, p / ENTRIES);
    DirSlotPlace(st, r, p / ENTRIES);
    AddrSplit(Idx(Pde(st, r, p / ENTRIES)), p % ENTRIES);
  }

  /** Storing a leaf whose rights its directory entry grants keeps the invariant. */
  lemma StoreLeafInv(s: State, a: nat, e: Pme)
    requires Inv(s) && a < |s.mem| && Lvl(s, a) == 2
    requires HasPresentBit(e) ==> RightsWithin(e, s.mem[s.parent[a / ENTRIES]])
    ensures Inv(s.(mem := s.mem[a := e]))
  {
    var s' := s.(mem := s.mem[a := e]);
    assert forall x: nat :: Lvl(s', x) == Lvl(s, x);
    assert Owned(s') by {
      forall k | Used(s', k) ensures LinksTo(s', s'.parent[k], k) && Lvl(s', s'.parent[k]) + 1 == s'.kind[k] {
        assert Used(s, k);
        assert Lvl(s, s.parent[k]) != 2;
      }
    }
    assert RightsCovered(s') by {
      forall x | 0 <= x < ROOTS && Lvl(s', x) == 2 && HasPresentBit(s'.mem[x])
        ensures RightsWithin(s'.mem[x], s'.mem[s'.parent[x / ENTRIES]])
      {
        assert Used(s, x / ENTRIES);
        assert s'.parent[x / ENTRIES] != a;
      }
    }
  }

  /** Storing a leaf changes the translation of its own page and of no other page of any space. */
  lemma StoreLeafWalk(s: State, a: nat, e: Pme, r: nat, p: nat)
    requires Inv(s) && a < |s.mem| && Lvl(s, a) == 2 && r in s.live && p < VPAGES
    ensures Walk(s.(mem := s.mem[a := e]), r, p)
         == if r == SpaceOf(s, a) && p == Base(s, a)
            then (if HasPresentBit(e) then Some(e) else None)
            else Walk(s, r, p)
  {
    hide RightsCovered, RootsPlain;
    var s' := s.(mem := s.mem[a := e]);
    PageSplit(p);
    assert Lvl(s, ROOTS + r) == 0;
    assert DirSlot(s', r, p / ENTRIES) == DirSlot(s, r, p / ENTRIES);
    if DirSlot(s, r, p / ENTRIES) >= 0 {
      DirSlotPlace(s, r, p / ENTRIES);
    }
    assert LeafAddr(s', r, p) == LeafAddr(s, r, p);
    Level2Slot(s, a);
    if LeafAddr(s, r, p) >= 0 {
      LeafSlot(s, r, p);
    }
  }

  // ---------------------------------------------------------------------------------------------
  // Hanging a fresh table below an absent entry

  ghost predicate TableLinked(s: State, s': State, e: nat, k: nat, ent: Pme)
    requires Shape(s)
  {
    && e < |s.mem| && Lvl(s, e) <= 1 && !IsPresent(s.mem[e], Lvl(s, e))
    && k < PHYSPAGES_MAX && !Used(s, k)
    && Idx(ent) == k && IsPresent(ent, Lvl(s, e))
    && s' == State(s.pages[k := PM_AREA + k * PAGESZ], s'.mem, s.kind[k := Lvl(s, e) + 1], s.parent[k := e], s.live)
    && |s'.mem| == |s.mem|
    && forall a :: 0 <= a < |s.mem| ==>
         s'.mem[a] == if a == e then ent else if a < ROOTS && a / ENTRIES == k then EMPTY else s.mem[a]
  }

  /** The entry for a new table. */
  lemma TableEntry(k: nat, flags: Attr, lvl: nat)
    requires k < PHYSPAGES_MAX && lvl <= 1
    ensures var ent := Pack(PM_AREA + k * PAGESZ, flags | PRESENT, lvl);
      && ent == SetFlags(Pme(AREA_FRAME + k, 0), flags | PRESENT, lvl)
      && Idx(ent) == k && IsPresent(ent, lvl) && (lvl == 0 ==> PlainRoot(ent))
  {
    PackedEntry(PM_AREA + k * PAGESZ, flags | PRESENT);
    PackedEntry(PM_AREA + k * PAGESZ, flags);
  }

  lemma LinkTableLevels(s: State, s': State, e: nat, k: nat, ent: Pme, a: nat)
    requires Inv(s) && TableLinked(s, s', e, k, ent)
    ensures Shape(s')
    ensures Lvl(s', a) == if a < ROOTS && a / ENTRIES == k then Lvl(s, e) + 1 else Lvl(s, a)
  {
  }

  lemma LinkTableOwned(s: State, s': State, e: nat, k: nat, ent: Pme)
    requires Inv(s) && TableLinked(s, s', e, k, ent)
    ensures Shape(s') && Owned(s')
  {
    hide RightsCovered, RootsPlain, Linked;
    LinkTableLevels(s, s', e, k, ent, e);
    forall x | Used(s', x)
      ensures 1 <= s'.kind[x] <= 2 && s'.parent[x] < |s'.mem| &&
              Lvl(s', s'.parent[x]) + 1 == s'.kind[x] && LinksTo(s', s'.parent[x], x)
    {
      if x != k {
        assert Used(s, x);
        LinkTableLevels(s, s', e, k, ent, s.parent[x]);
      }
    }
  }

  lemma LinkTableLinked(s: State, s': State, e: nat, k: nat, ent: Pme)
    requires Inv(s) && TableLinked(s, s', e, k, ent)
    ensures Shape(s') && Linked(s')
  {
    hide RightsCovered, RootsPlain, Owned;
    LinkTableLevels(s, s', e, k, ent, e);
    forall a | 0 <= a < |s'.mem| && Lvl(s', a) <= 1 && IsPresent(s'.mem[a], Lvl(s', a))
      ensures Used(s', Idx(s'.mem[a])) && s'.kind[Idx(s'.mem[a])] == Lvl(s', a) + 1 && s'.parent[Idx(s'.mem[a])] == a
    {
      LinkTableLevels(s, s', e, k, ent, a);
      if a != e {
        assert Used(s, Idx(s.mem[a]));
      }
    }
  }

  lemma LinkTableInv(s: State, s': State, e: nat, k: nat, ent: Pme)
    requires Inv(s) && TableLinked(s, s', e, k, ent) && (Lvl(s, e) == 0 ==> PlainRoot(ent))
    ensures Inv(s')
  {
    hide PlainRoot, Linked;
    LinkTableOwned(s, s', e, k, ent);
    LinkTableLinked(s, s', e, k, ent);
    assert RootsPlain(s') by {
      assert e >= ROOTS ==> Lvl(s, e) == 0;
    }
    hide RootsPlain;
    forall a | 0 <= a < ROOTS && Lvl(s', a) == 2 && HasPresentBit(s'.mem[a])
      ensures RightsWithin(s'.mem[a], s'.mem[s'.parent[a / ENTRIES]])
    {
      LinkTableLevels(s, s', e, k, ent, a);
      assert a / ENTRIES != k;
      assert Lvl(s, a) == 2 && Used(s, a / ENTRIES);
      assert LinksTo(s, s.parent[a / ENTRIES], a / ENTRIES);
      assert s'.mem[s'.parent[a / ENTRIES]] == s.mem[s.parent[a / ENTRIES]];
    }
  }

  lemma LinkTableWalk(s: State, s': State, e: nat, k: nat, ent: Pme, r: nat, p: nat)
    requires Inv(s) && TableLinked(s, s', e, k, ent) && Inv(s') && r in s.live && p < VPAGES
    ensures Walk(s', r, p) == Walk(s, r, p)
  {
    hide RightsCovered, RootsPlain;
    PageSplit(p);
    assert Lvl(s, ROOTS + r) == 0;
    if e == ROOTS + r {
      assert DirSlot(s, r, p / ENTRIES) == -1;
      DirSlotPlace(s', r, p / ENTRIES);
    } else {
      assert DirSlot(s', r, p / ENTRIES) == DirSlot(s, r, p / ENTRIES);
      LinkTableDirWalk(s, s', e, k, ent, r, p);
    }
  }

  lemma LinkTableDirWalk(s: State, s': State, e: nat, k: nat, ent: Pme, r: nat, p: nat)
    requires Inv(s) && TableLinked(s, s', e, k, ent) && Inv(s') && r in s.live && p < VPAGES
    requires p / ENTRIES < ENTRIES && DirSlot(s', r, p / ENTRIES) == DirSlot(s, r, p / ENTRIES)
    ensures Walk(s', r, p) == Walk(s, r, p)
  {
    hide Owned, Linked, RightsCovered, RootsPlain;
    if DirSlot(s, r, p / ENTRIES) >= 0 {
      DirSlotPlace(s, r, p / ENTRIES);
    }
    if LeafAddr(s', r, p) >= 0 {
      LeafSlot(s', r, p);
    }
    if LeafAddr(s, r, p) >= 0 {
      LeafSlot(s, r, p);
    }
  }

  lemma LinkTable(s: State, s': State, e: nat, k: nat, ent: Pme)
    requires Inv(s) && NoEmptyTables(s) && TableLinked(s, s', e, k, ent) && (Lvl(s, e) == 0 ==> PlainRoot(ent))
    ensures Inv(s') && Grew(s, s') && SameWalks(s, s') && NoEmptyTablesBut(s', k) && RootsKept(s, s', e)
  {
    hide PlainRoot, Owned, Linked, RightsCovered, RootsPlain, Walk;
    LinkTableInv(s, s', e, k, ent);
    forall r, p | r in s'.live && 0 <= p < VPAGES ensures Walk(s', r, p) == Walk(s, r, p) {
      LinkTableWalk(s, s', e, k, ent, r, p);
    }
    forall x | Used(s', x) && s'.kind[x] == 2 && x != k ensures !TableEmpty(s', x) {
      assert Used(s, x) && !TableEmpty(s, x);
      var a :| 0 <= a < ROOTS && a / ENTRIES == x && HasPresentBit(s.mem[a]);
      assert s'.mem[a] == s.mem[a];
    }
  }

  // ---------------------------------------------------------------------------------------------
  // Adding flags to a present root or directory entry

  /** `ent` may stand for the entry at `e`: same table, still present, no right taken away. */
  ghost predicate Widens(s: State, e: nat, ent: Pme)
    requires Shape(s)
  {
    && e < |s.mem| && Lvl(s, e) <= 1 && IsPresent(s.mem[e], Lvl(s, e)) && IsPresent(ent, Lvl(s, e))
    && ent.frame == s.mem[e].frame
    && (forall x :: RightsWithin(x, s.mem[e]) ==> RightsWithin(x, ent))
    && (Lvl(s, e) == 0 ==> PlainRoot(ent))
  }

  lemma WidenOwned(s: State, e: nat, ent: Pme)
    requires Inv(s) && Widens(s, e, ent)
    ensures var s' := s.(mem := s.mem[e := ent]); Shape(s') && Owned(s') && Linked(s') && RootsPlain(s')
  {
    hide RightsWithin, PlainRoot, RightsCovered, IsPresent;
    var s' := s.(mem := s.mem[e := ent]);
    assert forall x: nat :: Lvl(s', x) == Lvl(s, x);
    assert e >= ROOTS ==> Lvl(s, e) == 0;
    forall k | Used(s', k) ensures LinksTo(s', s'.parent[k], k) && Lvl(s', s'.parent[k]) + 1 == s'.kind[k] {
      assert Used(s, k) && LinksTo(s, s.parent[k], k);
    }
  }

  lemma AddFlags(s: State, e: nat, flags: Attr)
    requires Inv(s) && e < |s.mem| && Lvl(s, e) <= 1 && IsPresent(s.mem[e], Lvl(s, e))
    ensures Inv(s.(mem := s.mem[e := SetFlags(s.mem[e], flags, Lvl(s, e))]))
  {
    var ent := SetFlags(s.mem[e], flags, Lvl(s, e));
    SetFlagsKeeps(s.mem[e], flags, Lvl(s, e));
    if e >= ROOTS { PlainRootFlags(s.mem[e], flags); }
    forall x | RightsWithin(x, s.mem[e]) ensures RightsWithin(x, ent) {
      RightsGrow(x, s.mem[e], flags, Lvl(s, e));
    }
    hide SetFlags, RightsWithin, PlainRoot, IsPresent;
    WidenOwned(s, e, ent);
    WidenRights(s, e, ent);
  }

  lemma WidenRights(s: State, e: nat, ent: Pme)
    requires Inv(s) && Widens(s, e, ent)
    requires var s' := s.(mem := s.mem[e := ent]); Shape(s') && Owned(s')
    ensures RightsCovered(s.(mem := s.mem[e := ent]))
  {
    hide RightsWithin, PlainRoot, RootsPlain, Linked, IsPresent, HasPresentBit;
    var s' := s.(mem := s.mem[e := ent]);
    assert forall x: nat :: Lvl(s', x) == Lvl(s, x);
    forall x | 0 <= x < ROOTS && Lvl(s', x) == 2 && HasPresentBit(s'.mem[x])
      ensures RightsWithin(s'.mem[x], s'.mem[s'.parent[x / ENTRIES]])
    {
      assert Used(s, x / ENTRIES);
      assert RightsWithin(s.mem[x], s.mem[s.parent[x / ENTRIES]]);
    }
  }

  lemma AddFlagsWalk(s: State, e: nat, flags: Attr, r: nat, p: nat)
    requires Inv(s) && e < |s.mem| && Lvl(s, e) <= 1 && IsPresent(s.mem[e], Lvl(s, e))
    requires r in s.live && p < VPAGES
    ensures Walk(s.(mem := s.mem[e := SetFlags(s.mem[e], flags, Lvl(s, e))]), r, p) == Walk(s, r, p)
  {
    hide RightsCovered, RootsPlain;
    var s' := s.(mem := s.mem[e := SetFlags(s.mem[e], flags, Lvl(s, e))]);
    PageSplit(p);
    assert Lvl(s, ROOTS + r) == 0;
    assert Used(s, Idx(s.mem[e]));
    assert DirSlot(s', r, p / ENTRIES) == DirSlot(s, r, p / ENTRIES);
    if DirSlot(s, r, p / ENTRIES) >= 0 {
      DirSlotPlace(s, r, p / ENTRIES);
    }
    assert LeafAddr(s', r, p) == LeafAddr(s, r, p);
    if LeafAddr(s, r, p) >= 0 { LeafSlot(s, r, p); }
  }

  lemma ReopenTable(s: State, e: nat, flags: Attr)
    requires Inv(s) && NoEmptyTables(s)
    requires e < |s.mem| && Lvl(s, e) <= 1 && IsPresent(s.mem[e], Lvl(s, e))
    ensures var s' := s.(mem := s.mem[e := SetFlags(s.mem[e], flags, Lvl(s, e))]);
            Inv(s') && Grew(s, s') && SameWalks(s, s') && NoEmptyTables(s') && RootsKept(s, s', e)
  {
    var s' := s.(mem := s.mem[e := SetFlags(s.mem[e], flags, Lvl(s, e))]);
    AddFlags(s, e, flags);
    forall r, p | r in s'.live && 0 <= p < VPAGES ensures Walk(s', r, p) == Walk(s, r, p) {
      AddFlagsWalk(s, e, flags, r, p);
    }
    forall x | Used(s', x) && s'.kind[x] == 2 ensures !TableEmpty(s', x) {
      assert Used(s, x) && !TableEmpty(s, x);
      var a :| 0 <= a < ROOTS && a / ENTRIES == x && HasPresentBit(s.mem[a]);
      assert Lvl(s, a) == 2;
      assert s'.mem[a] == s.mem[a];
    }
  }

  // ---------------------------------------------------------------------------------------------
  // Freeing a table none of whose entries is present

  function Freed(s: State, e: nat): State
    requires Shape(s) && e < |s.mem| && Used(s, Idx(s.mem[e]))
  {
    State(s.pages[Idx(s.mem[e]) := 0], s.mem[e := ClearPresent(s.mem[e])], s.kind, s.parent,
          if Lvl(s, e) == 0 then s.live - {e - ROOTS} else s.live)
  }

  ghost predicate Freeable(s: State, e: nat) {
    && Inv(s) && e < |s.mem| && Lvl(s, e) <= 1 && IsPresent(s.mem[e], Lvl(s, e))
    && Used(s, Idx(s.mem[e])) && TableEmpty(s, Idx(s.mem[e]))
  }

  lemma FreedLevel(s: State, e: nat, x: nat)
    requires Freeable(s, e)
    ensures Shape(Freed(s, e))
    ensures Lvl(Freed(s, e), x)
         == if (x < ROOTS && x / ENTRIES == Idx(s.mem[e])) || (x == e && e >= ROOTS) then 3 else Lvl(s, x)
  {
  }

  lemma FreedOwned(s: State, e: nat)
    requires Freeable(s, e)
    ensures Shape(Freed(s, e)) && Owned(Freed(s, e))
  {
    hide RightsCovered, RootsPlain, Linked;
    var s', k := Freed(s, e), Idx(s.mem[e]);
    forall x | Used(s', x)
      ensures 1 <= s'.kind[x] <= 2 && s'.parent[x] < |s'.mem| &&
              Lvl(s', s'.parent[x]) + 1 == s'.kind[x] && LinksTo(s', s'.parent[x], x)
    {
      assert Used(s, x) && x != k;
      assert LinksTo(s, s.parent[x], x);
      assert s.parent[x] != e;
      FreedLevel(s, e, s.parent[x]);
    }
  }

  /** Freeing an empty table keeps the invariant. After freeing the directory the root entry still
      reads as present, so its space is no longer live. */
  lemma FreeTable(s: State, e: nat)
    requires Freeable(s, e)
    ensures Inv(Freed(s, e))
  {
    var s', k := Freed(s, e), Idx(s.mem[e]);
    FreedOwned(s, e);
    forall a | 0 <= a < |s'.mem| && Lvl(s', a) <= 1 && IsPresent(s'.mem[a], Lvl(s', a))
      ensures Used(s', Idx(s'.mem[a])) && s'.kind[Idx(s'.mem[a])] == Lvl(s', a) + 1 && s'.parent[Idx(s'.mem[a])] == a
    {
      FreedLevel(s, e, a);
      assert a != e;
      assert Used(s, Idx(s.mem[a]));
    }
    forall a | 0 <= a < ROOTS && Lvl(s', a) == 2 && HasPresentBit(s'.mem[a])
      ensures RightsWithin(s'.mem[a], s'.mem[s'.parent[a / ENTRIES]])
    {
      FreedLevel(s, e, a);
      assert Used(s, a / ENTRIES);
      assert LinksTo(s, s.parent[a / ENTRIES], a / ENTRIES);
      assert s.parent[a / ENTRIES] != e;
    }
  }

  lemma FreeTableWalk(s: State, e: nat, r: nat, p: nat)
    requires Freeable(s, e)
    requires r in Freed(s, e).live && p < VPAGES
    ensures Walk(Freed(s, e), r, p) == Walk(s, r, p)
  {
    hide RightsCovered, RootsPlain;
    var s' := Freed(s, e);
    PageSplit(p);
    assert Lvl(s, ROOTS + r) == 0;
    assert DirSlot(s', r, p / ENTRIES) == DirSlot(s, r, p / ENTRIES);
    if DirSlot(s, r, p / ENTRIES) >= 0 {
      DirSlotPlace(s, r, p / ENTRIES);
    }
    if LeafAddr(s, r, p) >= 0 {
      LeafSlot(s, r, p);
    }
  }

  // ---------------------------------------------------------------------------------------------
  // Composition along a walk

  lemma AddWraps(x: nat, a: nat, b: nat)
    ensures ((x + a) % TWO32 + b) % TWO32 == (x + a + b) % TWO32
  {
    var q, m := (x + a) / TWO32, (x + a) % TWO32;
    assert x + a + b == q * TWO32 + (m + b);
    assert (q * TWO32 + (m + b)) % TWO32 == (m + b) % TWO32;
  }

  lemma GrewTrans(s0: State, s1: State, s2: State)
    requires Grew(s0, s1) && Grew(s1, s2)
    ensures Grew(s0, s2)
  {
    forall k | Used(s0, k) ensures Used(s2, k) && s2.kind[k] == s0.kind[k] && s2.parent[k] == s0.parent[k] {
      assert Used(s1, k);
    }
  }

  /** Mapping a range and then the range that follows it maps the concatenation. */
  lemma ExtendRange(s0: State, s1: State, s2: State, r: nat, g: nat, m1: nat, m2: nat,
                    paddr: Word, paddr': Word, flags: Attr)
    requires Grew(s0, s1) && Grew(s1, s2)
    requires paddr % PAGESZ == 0 && paddr' == (paddr + m1 * PAGESZ) % TWO32 && paddr' % PAGESZ == 0
    requires RangeMapped(s0, s1, r, g, m1, paddr, flags) && RangeMapped(s1, s2, r, g + m1, m2, paddr', flags)
    ensures RangeMapped(s0, s2, r, g, m1 + m2, paddr, flags)
  {
    forall r', p | r' in s0.live && 0 <= p < VPAGES
      ensures Walk(s2, r', p) ==
        if r' == r && g <= p < g + (m1 + m2) then Some(LeafFor(paddr, p - g, flags)) else Walk(s0, r', p)
    {
      if g + m1 <= p < g + m1 + m2 {
        AddWraps(paddr, m1 * PAGESZ, (p - (g + m1)) * PAGESZ);
        assert LeafFor(paddr', p - (g + m1), flags) == LeafFor(paddr, p - g, flags);
      }
    }
  }

  /** Entry `j` of the table below entry `e`. */
  lemma ChildPlace(s: State, e: nat, k: nat, j: nat)
    requires Inv(s) && e < |s.mem| && Lvl(s, e) <= 1
    requires Used(s, k) && s.kind[k] == Lvl(s, e) + 1 && s.parent[k] == e && j < ENTRIES
    ensures var a := k * ENTRIES + j;
            && a < ROOTS && Lvl(s, a) == Lvl(s, e) + 1 && a / ENTRIES == k && a % ENTRIES == j
            && SpaceOf(s, a) == SpaceOf(s, e)
            && Base(s, a) == Base(s, e) + j * Cover(Lvl(s, e) + 1)
  {
    AddrSplit(k, j);
  }

  lemma ParentIsPresent(s: State, k: nat)
    requires Inv(s) && Used(s, k)
    ensures s.parent[k] < |s.mem| && s.kind[k] >= 1 && IsPresent(s.mem[s.parent[k]], s.kind[k] - 1)
  {
    assert LinksTo(s, s.parent[k], k);
  }

  lemma SpaceIsLive(s: State, e: nat)
    requires Inv(s) && e < |s.mem| && Lvl(s, e) <= 2
    ensures 0 <= SpaceOf(s, e) && SpaceOf(s, e) in s.live
  {
    if Lvl(s, e) == 1 { Level1Slot(s, e); }
    if Lvl(s, e) == 2 { Level2Slot(s, e); }
  }

  lemma SamePlace(s: State, s': State, e: nat)
    requires Inv(s) && Grew(s, s') && e < |s.mem| && Lvl(s, e) <= 2
    ensures Lvl(s', e) == Lvl(s, e) && SpaceOf(s', e) == SpaceOf(s, e) && Base(s', e) == Base(s, e)
  {
    if Lvl(s, e) == 2 { Level2Slot(s, e); }
  }

  /** A present leaf in table `x` makes that table non-empty; other tables keep theirs. */
  lemma StoreLeafNonEmpty(s: State, a: nat, e: Pme)
    requires Inv(s) && a < |s.mem| && Lvl(s, a) == 2 && HasPresentBit(e) && NoEmptyTablesBut(s, a / ENTRIES)
    requires Shape(s.(mem := s.mem[a := e]))
    ensures NoEmptyTables(s.(mem := s.mem[a := e]))
  {
    var s' := s.(mem := s.mem[a := e]);
    forall x | Used(s', x) && s'.kind[x] == 2 ensures !TableEmpty(s', x) {
      assert Used(s, x);
      if x == a / ENTRIES {
        assert HasPresentBit(s'.mem[a]);
      } else {
        var b :| 0 <= b < ROOTS && b / ENTRIES == x && HasPresentBit(s.mem[b]);
        assert s'.mem[b] == s.mem[b];
      }
    }
  }

  /** Storing the leaf of one page of a range. */
  lemma MapLeaf(s: State, a: nat, paddr: Word, flags: Attr)
    requires Inv(s) && a < |s.mem| && Lvl(s, a) == 2 && paddr % PAGESZ == 0
    requires s.mem[s.parent[a / ENTRIES]].attr & flags & RIGHTS == flags & RIGHTS
    requires NoEmptyTablesBut(s, a / ENTRIES)
    ensures var s' := s.(mem := s.mem[a := LeafFor(paddr, 0, flags)]);
            && Inv(s') && Grew(s, s') && NoEmptyTables(s') && RootsKept(s, s', a)
            && 0 <= SpaceOf(s, a)
            && RangeMapped(s, s', SpaceOf(s, a), Base(s, a), 1, paddr, flags)
  {
    var e := LeafFor(paddr, 0, flags);
    var s' := s.(mem := s.mem[a := e]);
    assert e.attr == flags | PRESENT;
    assert HasPresentBit(e) && RightsWithin(e, s.mem[s.parent[a / ENTRIES]]);
    StoreLeafInv(s, a, e);
    StoreLeafNonEmpty(s, a, e);
    SpaceIsLive(s, a);
    forall r, p | r in s.live && 0 <= p < VPAGES
      ensures Walk(s', r, p) == if r == SpaceOf(s, a) && Base(s, a) <= p < Base(s, a) + 1
                                then Some(LeafFor(paddr, p - Base(s, a), flags)) else Walk(s, r, p)
    {
      StoreLeafWalk(s, a, e, r, p);
    }
  }

  lemma MapStart(s0: State, s: State, c: Cur, lvl: nat, e: nat, flags: Attr)
    requires Inv(s0) && lvl <= 2 && e < |s0.mem| && Lvl(s0, e) == lvl
    requires CurOk(c)
    requires Inv(s) && Grew(s0, s) && SameWalks(s0, s) && RootsKept(s0, s, e)
    ensures MapProgress(s0, c, s, c, 0, lvl, e, flags)
  {
    hide Walk, Base, LeafFor, Owned, Linked, RightsCovered, RootsPlain, Lvl;
    SpaceIsLive(s0, e);
  }

  /** A call that finds no table below its entry, and gets no page for one, is stuck at its first page. */
  lemma StuckAtOnce(s: State, c: Cur, lvl: nat, e: nat)
    requires Inv(s) && CurOk(c) && lvl <= 1 && e < |s.mem| && Lvl(s, e) == lvl && !IsPresent(s.mem[e], lvl)
    requires lvl == 1 ==> c.size > 0
    ensures MapStuck(s, c, s, c, 0, lvl, e)
  {
    hide Owned, Linked, RightsCovered, RootsPlain;
    if lvl == 1 {
      Level1Slot(s, e);
      AddrSplit(e % ENTRIES, c.tblIdx);
    } else {
      RootLevel(s, e);
    }
  }

  /** Where a child call starts, when `m1` pages of the parent's range are done, and how far it may go. */
  lemma ChildPosition(s0: State, c0: Cur, s1: State, c1: Cur, m1: nat, m2: nat, lvl: nat, e: nat, k: nat)
    requires lvl <= 1 && Inv(s0) && Inv(s1) && Grew(s0, s1) && e < |s0.mem| && Lvl(s0, e) == lvl
    requires Used(s1, k) && s1.kind[k] == lvl + 1 && s1.parent[k] == e && ChildIdx(c1, lvl) < ENTRIES
    requires Start(c1, lvl) == Start(c0, lvl) + m1
    ensures var a := k * ENTRIES + ChildIdx(c1, lvl);
      && a < ROOTS && SpaceOf(s1, a) == SpaceOf(s0, e)
      && Base(s1, a) + Start(c1, lvl + 1) == Base(s0, e) + Start(c0, lvl) + m1
    ensures m2 + Start(c1, lvl + 1) <= Cover(lvl + 1) ==> m1 + m2 + Start(c0, lvl) <= Cover(lvl)
  {
    hide Inv, Base, SpaceOf, Lvl, Used;
    SamePlace(s0, s1, e);
    ChildPlace(s1, e, k, ChildIdx(c1, lvl));
  }

  /** Progress of a child call is progress of its parent. */
  lemma MapStep(s0: State, c0: Cur, s1: State, c1: Cur, m1: nat, s2: State, c2: Cur, m2: nat,
                lvl: nat, e: nat, k: nat, flags: Attr)
    requires lvl <= 1 && Inv(s0) && e < |s0.mem| && Lvl(s0, e) == lvl
    requires MapProgress(s0, c0, s1, c1, m1, lvl, e, flags)
    requires Used(s1, k) && s1.kind[k] == lvl + 1 && s1.parent[k] == e
    requires Start(c1, lvl) == Start(c0, lvl) + m1
    requires MapProgress(s1, c1, s2, c2, m2, lvl + 1, k * ENTRIES + ChildIdx(c1, lvl), flags)
    ensures MapProgress(s0, c0, s2, c2, m1 + m2, lvl, e, flags)
    ensures MapProgress(s0, c0, s2, Advance(c2, lvl), m1 + m2, lvl, e, flags)
  {
    hide Inv, RangeMapped, Base, SpaceOf, Lvl, Used, Start, Cover;
    var g, r := Base(s0, e) + Start(c0, lvl), SpaceOf(s0, e);
    ChildPosition(s0, c0, s1, c1, m1, m2, lvl, e, k);
    assert RangeMapped(s1, s2, r, g + m1, m2, c1.paddr, flags);
    GrewTrans(s0, s1, s2);
    ExtendRange(s0, s1, s2, r, g, m1, m2, c0.paddr, c1.paddr, flags);
    AddWraps(c0.paddr, m1 * PAGESZ, m2 * PAGESZ);
  }

  /** A stuck child call leaves its parent stuck at the same page. */
  lemma StuckStep(s0: State, c0: Cur, s1: State, c1: Cur, m1: nat, s2: State, c2: Cur, m2: nat,
                  lvl: nat, e: nat, k: nat)
    requires lvl <= 1 && Inv(s0) && Inv(s1) && Grew(s0, s1) && e < |s0.mem| && Lvl(s0, e) == lvl
    requires Used(s1, k) && s1.kind[k] == lvl + 1 && s1.parent[k] == e && ChildIdx(c1, lvl) < ENTRIES
    requires Start(c1, lvl) == Start(c0, lvl) + m1
    requires MapStuck(s1, c1, s2, c2, m2, lvl + 1, k * ENTRIES + ChildIdx(c1, lvl))
    ensures MapStuck(s0, c0, s2, c2, m1 + m2, lvl, e)
  {
    hide Inv, Base, SpaceOf, Lvl, Used, Start, TableMissing;
    ChildPosition(s0, c0, s1, c1, m1, m2, lvl, e, k);
  }

  /** After a complete child call the advanced cursor stands on the next page of the parent's range. */
  lemma AdvanceComplete(c0: Cur, c1: Cur, m1: nat, c2: Cur, m2: nat, lvl: nat)
    requires lvl <= 1 && CurOk(c2)
    requires Start(c1, lvl) == Start(c0, lvl) + m1
    requires MapComplete(c1, c2, m2, lvl + 1) && ChildIdx(c2, lvl) == ChildIdx(c1, lvl)
    ensures c2.size > 0 && ChildIdx(c2, lvl) + 1 < ENTRIES ==> Start(Advance(c2, lvl), lvl) == Start(c0, lvl) + m1 + m2
    ensures ChildIdx(c2, lvl) + 1 == ENTRIES || c2.size == 0 ==> MapComplete(c0, Advance(c2, lvl), m1 + m2, lvl)
  {
  }
}
