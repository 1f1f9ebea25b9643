/**
 What unmap does to any range of any space, and exactly when it removes the range: a closed form of the
 reference sweep in terms of what each page costs.
 */
module UnmapHoles {
  import opened Common
  import opened PageEntry
  import opened PageState
  import opened PageSteps
  import opened Sweep
  import opened UnmapSteps
  import opened PageTheorems

  /** What an absent leaf uses up: the cover of its whole table. */
  const HOLE: nat := ENTRIES * PAGESZ

  /** First present directory slot at or after `i`, or 1024. */
  function FirstDir(v: View, i: nat): (d: nat)
    requires i <= ENTRIES
    ensures i <= d <= ENTRIES && (d < ENTRIES ==> d in v.dirs)
    ensures forall x :: i <= x < d ==> x !in v.dirs
    decreases ENTRIES - i
  {
    if i == ENTRIES || i in v.dirs then i else FirstDir(v, i + 1)
  }

  /** Where the walk really starts: absent directory slots are passed with the table index unchanged. */
  function First(v: View, g: nat): nat
    requires g < VPAGES
  {
    FirstDir(v, g / ENTRIES) * ENTRIES + g % ENTRIES
  }

  /** Size used up at page `p`. */
  function PageCost(v: View, p: nat): nat {
    if p / ENTRIES !in v.dirs then 0 else if p in v.pages then PAGESZ else HOLE
  }

  /** Size used up by the pages from `a` up to `p`, if there is that much. */
  function Cost(v: View, a: nat, p: nat): nat
    decreases p - a
  {
    if p <= a then 0 else PageCost(v, a) + Cost(v, a + 1, p)
  }

  /** Size left behind page `p`, where it was `size` before: the end of the size stops the walk at a hole, but
      at a mapped page it wraps around. */
  function After(v: View, size: Word, p: nat): Word {
    if size == 0 || p / ENTRIES !in v.dirs then size
    else if p in v.pages then (size + TWO32 - PAGESZ) % TWO32
    else if HOLE <= size then size - HOLE else 0
  }

  /** Size left before page `p` by a walk that starts at `a`. */
  function Left(v: View, size: Word, a: nat, p: nat): Word
    decreases p - a
  {
    if p <= a then size else Left(v, After(v, size, a), a + 1, p)
  }

  // ---------------------------------------------------------------------------------------------
  // The sweep in closed form

  lemma {:induction false} LeftConcat(v: View, size: Word, a: nat, b: nat, p: nat)
    requires a <= b <= p
    ensures Left(v, size, a, p) == Left(v, Left(v, size, a, b), b, p)
    decreases b - a
  {
    if a < b {
      LeftConcat(v, After(v, size, a), a + 1, b, p);
    }
  }

  /** Nothing is used up where there is no table, nor when nothing is left. */
  lemma {:induction false} LeftIdle(v: View, size: Word, a: nat, p: nat)
    requires a <= p && (size == 0 || forall q :: a <= q < p ==> q / ENTRIES !in v.dirs)
    ensures Left(v, size, a, p) == size
    decreases p - a
  {
    if a < p {
      LeftIdle(v, size, a + 1, p);
    }
  }

  /** Pages the walk reaches while something is left of the size. */
  ghost predicate Reached(v: View, size: Word, a: nat, p: nat) {
    a <= p && p in v.pages && p / ENTRIES in v.dirs && Left(v, size, a, p) != 0
  }

  lemma SweepLeaf(v: View, p: nat, c: Cur)
    requires IndexOk(c) && c.size != 0 && p / ENTRIES in v.dirs
    ensures SweepEntry(v, 2, p, c) == Result(if p in v.pages then {p} else {}, c.(size := After(v, c.size, p)))
  {
    CoverszValues();
  }

  /** One present table, from the cursor's entry on. */
  lemma {:induction false} SweepTableLeft(v: View, d: nat, c: Cur)
    requires IndexOk(c) && d in v.dirs
    ensures var w, a, end := SweepTable(v, 1, d * ENTRIES, c), d * ENTRIES + c.tblIdx, (d + 1) * ENTRIES;
      && (forall p: nat :: p in w.pages <==> p < end && Reached(v, c.size, a, p))
      && w.cur.size == Left(v, c.size, a, end)
      && (w.cur.size != 0 ==> w.cur.tblIdx == 0)
    decreases ENTRIES - c.tblIdx
  {
    var a, end := d * ENTRIES + c.tblIdx, (d + 1) * ENTRIES;
    hide SweepTable, SweepEntry, After;
    SweepTableStep(v, 1, d * ENTRIES, c);
    if c.size == 0 {
      forall p: nat | a <= p <= end ensures Left(v, c.size, a, p) == 0 {
        LeftIdle(v, 0, a, p);
      }
    } else {
      assert a / ENTRIES == d;
      SweepLeaf(v, a, c);
      var w := SweepEntry(v, 2, a, c);
      assert forall p: nat :: p > a ==> Left(v, c.size, a, p) == Left(v, w.cur.size, a + 1, p);
      if c.tblIdx + 1 < ENTRIES {
        SweepTableLeft(v, d, Advance(w.cur, 1));
      }
    }
  }

  lemma SweepSlot(v: View, c: Cur)
    requires IndexOk(c)
    ensures SweepEntry(v, 1, c.dirIdx * ENTRIES, c)
         == if c.dirIdx in v.dirs then SweepTable(v, 1, c.dirIdx * ENTRIES, c) else Result({}, c)
  {
    CoverszValues();
    AddrSplit(c.dirIdx, 0);
  }

  /** Where a walk that has `size` left at directory slot `d` of a table index `t` really starts. */
  function From(v: View, d: nat, t: nat): nat
    requires d <= ENTRIES
  {
    FirstDir(v, d) * ENTRIES + t
  }

  /** The whole space, from the cursor on. */
  lemma {:induction false} SweepRootLeft(v: View, c: Cur)
    requires IndexOk(c)
    ensures forall p: nat ::
      p in SweepTable(v, 0, 0, c).pages <==> p < VPAGES && Reached(v, c.size, From(v, c.dirIdx, c.tblIdx), p)
    decreases ENTRIES - c.dirIdx
  {
    hide SweepTable, SweepEntry;
    var d, a := c.dirIdx, From(v, c.dirIdx, c.tblIdx);
    SweepTableStep(v, 0, 0, c);
    SweepSlot(v, c);
    if c.size == 0 {
      forall p: nat | a <= p ensures Left(v, 0, a, p) == 0 {
        LeftIdle(v, 0, a, p);
      }
    } else if d !in v.dirs {
      if d + 1 < ENTRIES {
        SweepRootLeft(v, Advance(c, 0));
      } else {
        assert a >= VPAGES;
      }
    } else {
      SweepTableLeft(v, d, c);
      var w := SweepTable(v, 1, d * ENTRIES, c);
      assert a == d * ENTRIES + c.tblIdx;
      if d + 1 < ENTRIES {
        var next := Advance(w.cur, 0);
        SweepRootLeft(v, next);
        ReachedBehind(v, c.size, a, d, next.tblIdx);
      }
    }
  }

  /** Behind a table, the walk goes on from the next present one with what is left. */
  lemma ReachedBehind(v: View, size: Word, a: nat, d: nat, t: nat)
    requires d + 1 < ENTRIES && a <= (d + 1) * ENTRIES
    requires Left(v, size, a, (d + 1) * ENTRIES) != 0 ==> t == 0
    ensures var left := Left(v, size, a, (d + 1) * ENTRIES);
      forall p: nat :: (d + 1) * ENTRIES <= p < VPAGES ==>
        (Reached(v, size, a, p) <==> Reached(v, left, From(v, d + 1, t), p))
  {
    var end, left := (d + 1) * ENTRIES, Left(v, size, a, (d + 1) * ENTRIES);
    var from := From(v, d + 1, t);
    forall p: nat | end <= p < VPAGES && p / ENTRIES in v.dirs
      ensures Reached(v, size, a, p) <==> Reached(v, left, from, p)
    {
      LeftConcat(v, size, a, end, p);
      assert p / ENTRIES >= FirstDir(v, d + 1);
      if left == 0 {
        LeftIdle(v, 0, end, p);
        if from <= p { LeftIdle(v, 0, from, p); }
      } else {
        assert end <= from <= p;
        LeftConcat(v, left, end, from, p);
        LeftIdle(v, left, end, from);
      }
    }
  }

  /** The reference sweep of any cursor, in closed form. */
  lemma SweepIsReached(v: View, c: Cur)
    requires IndexOk(c) && v.root
    ensures forall p: nat ::
      p in SweepEntry(v, 0, 0, c).pages <==> p < VPAGES && Reached(v, c.size, First(v, Start(c, 0)), p)
  {
    AddrSplit(c.dirIdx, c.tblIdx);
    SweepRootLeft(v, c);
    hide SweepTable, Reached, FirstDir;
    assert First(v, Start(c, 0)) == From(v, c.dirIdx, c.tblIdx);
    assert SweepEntry(v, 0, 0, c) == SweepTable(v, 0, 0, c);
  }

  // ---------------------------------------------------------------------------------------------
  // What is left, in terms of the cost

  lemma {:induction false} CostConcat(v: View, a: nat, b: nat, p: nat)
    requires a <= b <= p
    ensures Cost(v, a, p) == Cost(v, a, b) + Cost(v, b, p)
    decreases b - a
  {
    if a < b {
      CostConcat(v, a + 1, b, p);
    }
  }

  lemma {:induction false} CostIdle(v: View, a: nat, p: nat)
    requires a <= p && forall q :: a <= q < p ==> q / ENTRIES !in v.dirs
    ensures Cost(v, a, p) == 0
    decreases p - a
  {
    if a < p {
      CostIdle(v, a + 1, p);
    }
  }

  /** Whole pages are used up until nothing is left. */
  lemma {:induction false} LeftOfPages(v: View, size: Word, a: nat, p: nat)
    requires size % PAGESZ == 0
    ensures Left(v, size, a, p) == if Cost(v, a, p) <= size then size - Cost(v, a, p) else 0
    decreases p - a
  {
    if a < p {
      AfterPage(v, size, a);
      hide After, PageCost;
      LeftOfPages(v, After(v, size, a), a + 1, p);
    }
  }

  lemma AfterPage(v: View, size: Word, a: nat)
    requires size % PAGESZ == 0
    ensures After(v, size, a) == if PageCost(v, a) <= size then size - PageCost(v, a) else 0
    ensures After(v, size, a) % PAGESZ == 0
  {
  }

  /** A hole at which a walk that started at `a` with a size that is no number of pages comes to its end. */
  predicate Stops(v: View, size: Word, a: nat, h: nat) {
    h / ENTRIES in v.dirs && h !in v.pages && (size - Cost(v, a, h)) % TWO32 < HOLE
  }

  lemma StopsShift(v: View, size: Word, a: nat, h: nat)
    requires size % PAGESZ != 0 && a < h && !Stops(v, size, a, a)
    ensures var left := After(v, size, a);
      left % PAGESZ == size % PAGESZ && (left - Cost(v, a + 1, h)) % TWO32 == (size - Cost(v, a, h)) % TWO32
    ensures Stops(v, After(v, size, a), a + 1, h) <==> Stops(v, size, a, h)
  {
    var left, k, m := After(v, size, a), PageCost(v, a), Cost(v, a + 1, h);
    assert left == size - k || left == size - k + TWO32;
    if left == size - k + TWO32 {
      ModShift(size - k - m);
    }
  }

  lemma ModShift(x: int)
    ensures (x + TWO32) % TWO32 == x % TWO32
  {
  }

  /** Any other size wraps around at mapped pages, and only a hole ends the walk. */
  lemma {:induction false} LeftUntilHole(v: View, size: Word, a: nat, p: nat)
    requires size % PAGESZ != 0
    ensures Left(v, size, a, p) != 0 <==> forall h: nat :: a <= h < p ==> !Stops(v, size, a, h)
    decreases p - a
  {
    if a >= p {
      assert Left(v, size, a, p) == size != 0;
    } else {
      assert Cost(v, a, a) == 0;
      if Stops(v, size, a, a) {
        assert After(v, size, a) == 0;
        LeftIdle(v, 0, a + 1, p);
      } else {
        var left, b := After(v, size, a), a + 1;
        StopsShift(v, size, a, p);
        LeftUntilHole(v, left, b, p);
        forall h: nat | a < h < p ensures Stops(v, left, b, h) <==> Stops(v, size, a, h) {
          StopsShift(v, size, a, h);
        }
        if h: nat :| a <= h < p && Stops(v, size, a, h) {
          assert Stops(v, left, b, h);
        }
      }
    }
  }

  // ---------------------------------------------------------------------------------------------
  // Whole calls

  /** The space is still there and translates page `p`. */
  ghost predicate Mapped(s: State, r: nat, p: nat) {
    r in s.live && |s.mem| >= ROOTS && ROOTS + r < |s.mem| && p < VPAGES && Walk(s, r, p).Some?
  }

  /** For every range and size: a mapped page is removed exactly when the walk reaches it. */
  lemma UnmapRemoves(s: State, s': State, r: nat, vaddr: Word, size: Word, p: nat)
    requires Inv(s) && UnmapSpec(s, s', r, vaddr, size) && p in ViewOf(s, r).pages
    ensures p < VPAGES && p / ENTRIES in ViewOf(s, r).dirs
    ensures var v := ViewOf(s, r); Mapped(s', r, p) <==> !Reached(v, UnmapSize(size), First(v, vaddr / PAGESZ), p)
  {
    hide Walk, Owned, Linked, RightsCovered, RootsPlain, Reached, SweepEntry, ViewOf, First, NoEmptyTables;
    var v, c := ViewOf(s, r), StartCur(vaddr, UnmapSize(size));
    assert p < VPAGES && Walk(s, r, p).Some? by { ViewPage(s, r, p); }
    MappedInView(s, r, p);
    assert Start(c, 0) == vaddr / PAGESZ && c.size == UnmapSize(size);
    SweepIsReached(v, c);
    if r in s'.live {
      assert Walk(s', r, p) == if p in SweepEntry(v, 0, 0, c).pages then None else Walk(s, r, p);
    } else {
      assert p in SweepEntry(v, 0, 0, c).pages;
    }
  }

  lemma ViewPage(s: State, r: nat, p: nat)
    requires |s.mem| >= ROOTS && ROOTS + r < |s.mem| && p in ViewOf(s, r).pages
    ensures p < VPAGES && Walk(s, r, p).Some?
  {
  }

  /** Condition, on what is mapped before the call, for unmap to remove the pages [g, g + n) and no others:
      what lies in the range is paid for before the size runs out, and nothing outside it is. */
  ghost predicate UnmapOk(v: View, g: nat, n: nat)
    requires g < VPAGES
  {
    forall p :: p in v.pages ==>
      (First(v, g) <= p && Cost(v, First(v, g), p) < n * PAGESZ <==> g <= p < g + n)
  }

  /** Unmap of any number of pages, anywhere, is exact if and only if `UnmapOk` holds before the call. */
  lemma UnmapExactIff(s: State, s': State, r: nat, vaddr: Word, size: Word, n: nat)
    requires Inv(s) && UnmapSpec(s, s', r, vaddr, size) && UnmapSize(size) == n * PAGESZ
    ensures var v, g := ViewOf(s, r), vaddr / PAGESZ;
      (forall p :: p in v.pages ==> (!Mapped(s', r, p) <==> g <= p < g + n)) <==> UnmapOk(v, g, n)
  {
    hide Walk, Inv, UnmapSize, Mapped, ViewOf, First, Left, Cost, Cleared, SweepEntry, Survives, NoEmptyTables;
    var v, g := ViewOf(s, r), vaddr / PAGESZ;
    var a := First(v, g);
    forall p | p in v.pages
      ensures p < VPAGES && (!Mapped(s', r, p) <==> a <= p && Cost(v, a, p) < n * PAGESZ)
    {
      UnmapRemoves(s, s', r, vaddr, size, p);
      LeftOfPages(v, n * PAGESZ, a, p);
    }
  }

  /** The walk that no rounding has made a number of pages, such as that of `addrspc_cleanup`: a page stays
      mapped exactly when it lies before the start, or behind a hole at which the size runs out. */
  lemma UnmapUnrounded(s: State, s': State, r: nat, vaddr: Word, size: Word, p: nat)
    requires Inv(s) && UnmapSpec(s, s', r, vaddr, size) && UnmapSize(size) % PAGESZ != 0 && p in ViewOf(s, r).pages
    ensures var v := ViewOf(s, r); var a := First(v, vaddr / PAGESZ);
      p < VPAGES && (Mapped(s', r, p) <==> p < a || exists h: nat :: a <= h < p && Stops(v, UnmapSize(size), a, h))
  {
    hide Walk, Inv, UnmapSize, Mapped, ViewOf, First, Left, Stops, Cleared, SweepEntry, Survives, NoEmptyTables;
    var v, a := ViewOf(s, r), First(ViewOf(s, r), vaddr / PAGESZ);
    UnmapRemoves(s, s', r, vaddr, size, p);
    LeftUntilHole(v, UnmapSize(size), a, p);
  }

  /** A hole at which cleaning up a whole space comes to its end. */
  predicate StopsCleanup(v: View, h: nat) {
    Stops(v, TWO32 - 1, 0, h)
  }

  lemma CostFromFirst(v: View, h: nat)
    requires h / ENTRIES in v.dirs && h < VPAGES
    ensures First(v, 0) <= h && Cost(v, First(v, 0), h) == Cost(v, 0, h)
  {
    var a := First(v, 0);
    CostConcat(v, 0, a, h);
    CostIdle(v, 0, a);
  }

  /** `addrspc_cleanup` leaves a page mapped exactly when, in a present table below it, there is a hole at which
      less than a table's worth of the size, counted modulo 2^32, is left. */
  lemma CleanupLeaves(s: State, s': State, r: nat, p: nat)
    requires Inv(s) && UnmapSpec(s, s', r, 0, TWO32 - 1) && p in ViewOf(s, r).pages
    ensures Mapped(s', r, p) <==> exists h: nat :: h < p && StopsCleanup(ViewOf(s, r), h)
  {
    hide Walk, Inv, First, Left, Cost, Cleared, SweepEntry, Survives, NoEmptyTables;
    var v := ViewOf(s, r);
    UnmapRemoves(s, s', r, 0, TWO32 - 1, p);
    UnmapUnrounded(s, s', r, 0, TWO32 - 1, p);
    CostFromFirst(v, p);
    forall h: nat | h < p && h / ENTRIES in v.dirs
      ensures First(v, 0) <= h && (Stops(v, TWO32 - 1, First(v, 0), h) <==> StopsCleanup(v, h))
    {
      CostFromFirst(v, h);
    }
  }

  /** A space outlives an unmap exactly when it had no directory, or keeps a page. */
  lemma LiveIff(s: State, s': State, r: nat, vaddr: Word, size: Word)
    requires Inv(s) && UnmapSpec(s, s', r, vaddr, size)
    ensures r in s'.live <==> s.mem[ROOTS + r] == EMPTY || exists p :: p in ViewOf(s, r).pages && Mapped(s', r, p)
  {
    hide Owned, Linked, RightsCovered, RootsPlain, SweepEntry, NoEmptyTables;
    var swept := SweepEntry(ViewOf(s, r), 0, 0, StartCur(vaddr, UnmapSize(size))).pages;
    if r in s'.live && s.mem[ROOTS + r] != EMPTY {
      var p :| p in ViewOf(s, r).pages && p !in swept;
      assert Walk(s', r, p) == Walk(s, r, p);
    }
  }

  /** So cleaning up frees everything exactly when no page lies behind such a hole. */
  lemma CleanupKeepsSpace(s: State, s': State, r: nat)
    requires Inv(s) && UnmapSpec(s, s', r, 0, TWO32 - 1)
    ensures var v := ViewOf(s, r);
      r in s'.live <==> s.mem[ROOTS + r] == EMPTY || exists h, p :: 0 <= h < p && p in v.pages && StopsCleanup(v, h)
  {
    var v := ViewOf(s, r);
    hide Inv, UnmapSpec, StopsCleanup, Mapped;
    LiveIff(s, s', r, 0, TWO32 - 1);
    forall p | p in v.pages
      ensures Mapped(s', r, p) <==> exists h: nat :: h < p && StopsCleanup(v, h)
    {
      CleanupLeaves(s, s', r, p);
    }
  }

  // ---------------------------------------------------------------------------------------------
  // Ranges inside one table

  lemma {:induction false} CostInTable(v: View, a: nat, p: nat)
    requires a <= p && forall q :: a <= q < p ==> q / ENTRIES in v.dirs
    ensures Cost(v, a, p) >= (p - a) * PAGESZ
    ensures if forall q :: a <= q < p ==> q in v.pages then Cost(v, a, p) == (p - a) * PAGESZ else Cost(v, a, p) >= HOLE
    decreases p - a
  {
    if a < p {
      CostInTable(v, a + 1, p);
    }
  }

  /** In a present table no mapped page follows a hole; below an absent directory slot, the next present table
      has no page at the same offset. */
  ghost predicate OneTableOk(v: View, g: nat, n: nat)
    requires g < VPAGES
  {
    if g / ENTRIES in v.dirs then
      forall p, q :: g <= p < q < g + n && q in v.pages ==> p in v.pages
    else
      FirstDir(v, g / ENTRIES) == ENTRIES || First(v, g) !in v.pages
  }

  /** What the condition of `UnmapExactIff` comes to in a range that stays inside one table. */
  lemma OneTable(v: View, g: nat, n: nat)
    requires g < VPAGES && 1 <= n <= ENTRIES - g % ENTRIES
    requires forall p :: p in v.pages ==> p < VPAGES && p / ENTRIES in v.dirs
    ensures UnmapOk(v, g, n) <==> OneTableOk(v, g, n)
  {
    var a := First(v, g);
    if g / ENTRIES in v.dirs {
      assert a == g;
      forall p | p in v.pages && g <= p
        ensures Cost(v, g, p) < n * PAGESZ <==> p < g + n && forall q :: g <= q < p ==> q in v.pages
      {
        assert forall q :: g <= q < g + n ==> q / ENTRIES == g / ENTRIES;
        CostInTable(v, g, if p < g + n then p else g + n);
        if p >= g + n { CostConcat(v, g, g + n, p); }
      }
    } else {
      assert forall q :: g <= q < g + n ==> q / ENTRIES == g / ENTRIES;
      assert Cost(v, a, a) == 0;
      if a !in v.pages {
        forall p | p in v.pages && a <= p ensures Cost(v, a, p) >= n * PAGESZ {
          assert a / ENTRIES in v.dirs && Cost(v, a, p) >= HOLE;
        }
      }
    }
  }

  /** So unmap of a range inside one table is exact if and only if that holds before the call. */
  lemma UnmapExactInTable(s: State, s': State, r: nat, vaddr: Word, size: Word, n: nat)
    requires Inv(s) && UnmapSpec(s, s', r, vaddr, size) && UnmapSize(size) == n * PAGESZ
    requires 1 <= n <= ENTRIES - vaddr / PAGESZ % ENTRIES
    ensures var v, g := ViewOf(s, r), vaddr / PAGESZ;
      (forall p :: p in v.pages ==> (!Mapped(s', r, p) <==> g <= p < g + n)) <==> OneTableOk(v, g, n)
  {
    var v, g := ViewOf(s, r), vaddr / PAGESZ;
    hide Inv, UnmapSpec, Mapped, UnmapOk, OneTableOk, UnmapSize;
    forall p | p in v.pages ensures p < VPAGES && p / ENTRIES in v.dirs {
      UnmapRemoves(s, s', r, vaddr, size, p);
    }
    UnmapExactIff(s, s', r, vaddr, size, n);
    OneTable(v, g, n);
  }

  // ---------------------------------------------------------------------------------------------
  // A directory that is freed

  /** A root entry has no present bit to clear: after its directory is freed it still reads as present, and
      points to a table page that is free. */
  lemma DeadRootDangles(s: State, s': State, r: nat, vaddr: Word, size: Word)
    requires Inv(s) && UnmapSpec(s, s', r, vaddr, size) && s.mem[ROOTS + r] != EMPTY
    requires forall p :: p in ViewOf(s, r).pages ==> !Mapped(s', r, p)
    ensures r !in s'.live && IsPresent(s'.mem[ROOTS + r], 0) && !Used(s', Idx(s'.mem[ROOTS + r]))
  {
    LiveIff(s, s', r, vaddr, size);
  }
}
