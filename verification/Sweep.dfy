/**
 Reference semantics of unmap on a bare view of one address space: which directory slots and which
 pages are present. The walk visits entries in address order and takes from the size what it believes
 each entry covers.
 */
module Sweep {
  import opened Common
  import opened PageEntry
  import opened PageState

  datatype View = View(root: bool, dirs: set<nat>, pages: set<nat>)

  datatype Result = Result(pages: set<nat>, cur: Cur)

  predicate IndexOk(c: Cur) {
    c.dirIdx < ENTRIES && c.tblIdx < ENTRIES
  }

  predicate Has(v: View, lvl: nat, base: nat) {
    match lvl
    case 0 => v.root
    case 1 => base / ENTRIES in v.dirs
    case _ => base in v.pages
  }

  predicate BaseOk(lvl: nat, base: nat) {
    match lvl
    case 0 => base == 0
    case 1 => base % ENTRIES == 0
    case _ => true
  }

  /** The size left after an absent entry of level `lvl`. */
  function SkipSize(lvl: nat, size: Word): Word
    requires lvl < 4
  {
    size - (if Coversz(lvl) <= size then Coversz(lvl) else size)
  }

  /** Pages removed, and cursor left behind, by a call for the entry that covers pages from `base` on. */
  function SweepEntry(v: View, lvl: nat, base: nat, c: Cur): (w: Result)
    requires lvl <= 2 && IndexOk(c)
    ensures IndexOk(w.cur) && w.cur.paddr == c.paddr
    ensures lvl >= 1 ==> w.cur.dirIdx == c.dirIdx
    ensures lvl >= 2 ==> w.cur.tblIdx == c.tblIdx
    decreases 2 - lvl, 1, 0
  {
    if !Has(v, lvl, base) then Result({}, c.(size := SkipSize(lvl, c.size)))
    else if lvl == 2 then Result({base}, c.(size := (c.size + TWO32 - PAGESZ) % TWO32))
    else SweepTable(v, lvl, base, c)
  }

  function SweepTable(v: View, lvl: nat, base: nat, c: Cur): (w: Result)
    requires lvl <= 1 && IndexOk(c)
    ensures IndexOk(w.cur) && w.cur.paddr == c.paddr
    ensures lvl == 1 ==> w.cur.dirIdx == c.dirIdx
    decreases 2 - lvl, 0, ENTRIES - ChildIdx(c, lvl)
  {
    if c.size == 0 then Result({}, c)
    else
      var w := SweepEntry(v, lvl + 1, base + ChildIdx(c, lvl) * Cover(lvl + 1), c);
      if ChildIdx(c, lvl) + 1 == ENTRIES then Result(w.pages, Advance(w.cur, lvl))
      else
        var rest := SweepTable(v, lvl, base, Advance(w.cur, lvl));
        Result(w.pages + rest.pages, rest.cur)
  }

  /** One turn of the loop over a table. */
  lemma SweepTableStep(v: View, lvl: nat, base: nat, c: Cur)
    requires lvl <= 1 && IndexOk(c)
    ensures c.size == 0 ==> SweepTable(v, lvl, base, c) == Result({}, c)
    ensures var w := SweepEntry(v, lvl + 1, base + ChildIdx(c, lvl) * Cover(lvl + 1), c);
            c.size != 0 ==>
              SweepTable(v, lvl, base, c)
              == if ChildIdx(c, lvl) + 1 == ENTRIES then Result(w.pages, Advance(w.cur, lvl))
                 else var rest := SweepTable(v, lvl, base, Advance(w.cur, lvl));
                      Result(w.pages + rest.pages, rest.cur)
  {
  }

  // ---------------------------------------------------------------------------------------------
  // A call depends only on what its entry covers

  ghost predicate Agree(v: View, v': View, lo: nat, hi: nat) {
    && v.root == v'.root
    && (forall p :: lo <= p < hi ==> (p in v.pages <==> p in v'.pages))
    && (forall i: nat :: lo <= i * ENTRIES < hi ==> (i in v.dirs <==> i in v'.dirs))
  }

  lemma {:induction false} SweepFrame(v: View, v': View, lvl: nat, base: nat, c: Cur)
    requires lvl <= 2 && IndexOk(c) && BaseOk(lvl, base)
    requires Agree(v, v', base, base + Cover(lvl))
    ensures SweepEntry(v, lvl, base, c) == SweepEntry(v', lvl, base, c)
    decreases 2 - lvl, 1, 0
  {
    if lvl == 1 { assert base == (base / ENTRIES) * ENTRIES; }
    if lvl <= 1 && Has(v, lvl, base) {
      SweepTableFrame(v, v', lvl, base, c);
    }
  }

  lemma {:induction false} SweepTableFrame(v: View, v': View, lvl: nat, base: nat, c: Cur)
    requires lvl <= 1 && IndexOk(c) && BaseOk(lvl, base)
    requires Agree(v, v', base + ChildIdx(c, lvl) * Cover(lvl + 1), base + Cover(lvl))
    ensures SweepTable(v, lvl, base, c) == SweepTable(v', lvl, base, c)
    decreases 2 - lvl, 0, ENTRIES - ChildIdx(c, lvl)
  {
    hide SweepTable, SweepEntry;
    SweepTableStep(v, lvl, base, c);
    SweepTableStep(v', lvl, base, c);
    if c.size != 0 {
      var b := base + ChildIdx(c, lvl) * Cover(lvl + 1);
      SweepFrame(v, v', lvl + 1, b, c);
      var w := SweepEntry(v, lvl + 1, b, c);
      if ChildIdx(c, lvl) + 1 < ENTRIES {
        SweepTableFrame(v, v', lvl, base, Advance(w.cur, lvl));
      }
    }
  }

  /** A call removes pages of its own region only. */
  lemma {:induction false} SweepWithin(v: View, lvl: nat, base: nat, c: Cur)
    requires lvl <= 2 && IndexOk(c)
    ensures forall p :: p in SweepEntry(v, lvl, base, c).pages ==> base <= p < base + Cover(lvl)
    decreases 2 - lvl, 1, 0
  {
    if lvl <= 1 && Has(v, lvl, base) {
      SweepTableWithin(v, lvl, base, c);
    }
  }

  lemma {:induction false} SweepTableWithin(v: View, lvl: nat, base: nat, c: Cur)
    requires lvl <= 1 && IndexOk(c)
    ensures forall p :: p in SweepTable(v, lvl, base, c).pages ==> base <= p < base + Cover(lvl)
    decreases 2 - lvl, 0, ENTRIES - ChildIdx(c, lvl)
  {
    hide SweepTable, SweepEntry;
    SweepTableStep(v, lvl, base, c);
    if c.size != 0 {
      var b := base + ChildIdx(c, lvl) * Cover(lvl + 1);
      assert base <= b && b + Cover(lvl + 1) <= base + Cover(lvl);
      SweepWithin(v, lvl + 1, b, c);
      if ChildIdx(c, lvl) + 1 < ENTRIES {
        SweepTableWithin(v, lvl, base, Advance(SweepEntry(v, lvl + 1, b, c).cur, lvl));
      }
    }
  }

  // ---------------------------------------------------------------------------------------------
  // Fully mapped ranges

  function Range(lo: nat, n: nat): (s: set<nat>)
    ensures forall p :: p in s <==> lo <= p < lo + n
  {
    if n == 0 then {} else Range(lo, n - 1) + {lo + n - 1}
  }

  /** Everything the cursor's next `n` pages need is present. */
  ghost predicate Full(v: View, lo: nat, n: nat) {
    v.root && forall p: nat :: lo <= p < lo + n ==> InView(v, p)
  }

  predicate InView(v: View, p: nat) {
    p in v.pages && p / ENTRIES in v.dirs
  }

  /** How much of `n` pages from the cursor on an entry of level `lvl` covers. */
  function Part(c: Cur, lvl: nat, n: nat): nat
    requires IndexOk(c)
  {
    Min(n, Cover(lvl) - Start(c, lvl))
  }

  /** The result removes exactly the first pages of the cursor's range that the entry covers. */
  ghost predicate Exact(w: Result, lvl: nat, base: nat, c: Cur, n: nat)
    requires IndexOk(c)
  {
    && w.pages == Range(base + Start(c, lvl), Part(c, lvl, n))
    && w.cur.size == (n - Part(c, lvl, n)) * PAGESZ
    && (n > Part(c, lvl, n) ==> Start(w.cur, lvl) == 0)
  }

  lemma ExactLast(w: Result, lvl: nat, base: nat, c: Cur, n: nat)
    requires lvl <= 1 && IndexOk(c) && IndexOk(w.cur) && ChildIdx(w.cur, lvl) == ChildIdx(c, lvl)
    requires ChildIdx(c, lvl) + 1 == ENTRIES
    requires Exact(w, lvl + 1, base + ChildIdx(c, lvl) * Cover(lvl + 1), c, n)
    ensures Exact(Result(w.pages, Advance(w.cur, lvl)), lvl, base, c, n)
  {
    assert Part(c, lvl, n) == Part(c, lvl + 1, n);
  }

  lemma ExactDone(w: Result, lvl: nat, base: nat, c: Cur, n: nat)
    requires lvl <= 1 && IndexOk(c) && IndexOk(w.cur)
    requires n == Part(c, lvl + 1, n)
    requires Exact(w, lvl + 1, base + ChildIdx(c, lvl) * Cover(lvl + 1), c, n)
    ensures w.cur.size == 0 && Exact(Result(w.pages + {}, Advance(w.cur, lvl)), lvl, base, c, n)
  {
    assert Part(c, lvl, n) == n;
  }

  /** What is left for the rest of the loop, and that it is still fully present. */
  lemma FullStep(v: View, w: Result, lvl: nat, base: nat, c: Cur, n: nat)
    requires lvl <= 1 && IndexOk(c) && IndexOk(w.cur) && ChildIdx(w.cur, lvl) == ChildIdx(c, lvl)
    requires ChildIdx(c, lvl) + 1 < ENTRIES && n > Part(c, lvl + 1, n)
    requires Full(v, base + Start(c, lvl), Part(c, lvl, n))
    requires Exact(w, lvl + 1, base + ChildIdx(c, lvl) * Cover(lvl + 1), c, n)
    ensures var m1, c' := Part(c, lvl + 1, n), Advance(w.cur, lvl);
            c'.size == (n - m1) * PAGESZ && Full(v, base + Start(c', lvl), Part(c', lvl, n - m1))
  {
    assert Start(Advance(w.cur, lvl), lvl) == Start(c, lvl) + Part(c, lvl + 1, n);
  }

  /** The part of the range below the cursor's entry lies in the part below its parent. */
  lemma FullChild(v: View, lvl: nat, base: nat, c: Cur, n: nat)
    requires lvl <= 1 && IndexOk(c) && BaseOk(lvl, base)
    requires Full(v, base + Start(c, lvl), Part(c, lvl, n))
    ensures var b := base + ChildIdx(c, lvl) * Cover(lvl + 1);
            BaseOk(lvl + 1, b) && Full(v, b + Start(c, lvl + 1), Part(c, lvl + 1, n))
  {
    assert base + ChildIdx(c, lvl) * Cover(lvl + 1) + Start(c, lvl + 1) == base + Start(c, lvl);
  }

  lemma ExactStep(w: Result, rest: Result, lvl: nat, base: nat, c: Cur, n: nat)
    requires lvl <= 1 && IndexOk(c) && IndexOk(w.cur) && ChildIdx(w.cur, lvl) == ChildIdx(c, lvl)
    requires ChildIdx(c, lvl) + 1 < ENTRIES && n > Part(c, lvl + 1, n)
    requires Exact(w, lvl + 1, base + ChildIdx(c, lvl) * Cover(lvl + 1), c, n)
    requires Exact(rest, lvl, base, Advance(w.cur, lvl), n - Part(c, lvl + 1, n))
    ensures Exact(Result(w.pages + rest.pages, rest.cur), lvl, base, c, n)
  {
    hide Range;
    var p, m1, c' := base + Start(c, lvl), Part(c, lvl + 1, n), Advance(w.cur, lvl);
    assert Start(c', lvl) == Start(c, lvl) + m1;
    var m2 := Part(c', lvl, n - m1);
    assert Part(c, lvl, n) == m1 + m2;
    RangeConcat(p, m1, m2);
  }

  lemma RangeConcat(p: nat, m1: nat, m2: nat)
    ensures Range(p, m1 + m2) == Range(p, m1) + Range(p + m1, m2)
  {
  }

  /** A call whose part of the range is fully present removes exactly that part. */
  lemma {:induction false} SweepFull(v: View, lvl: nat, base: nat, c: Cur, n: nat)
    requires lvl <= 2 && IndexOk(c) && BaseOk(lvl, base)
    requires c.size == n * PAGESZ && n > 0
    requires Full(v, base + Start(c, lvl), Part(c, lvl, n))
    ensures Exact(SweepEntry(v, lvl, base, c), lvl, base, c, n)
    decreases 2 - lvl, 1, 0
  {
    var p := base + Start(c, lvl);
    assert InView(v, p);
    if lvl == 2 {
      assert Range(base, 1) == {base};
    } else {
      assert Has(v, lvl, base);
      SweepTableFull(v, lvl, base, c, n);
    }
  }

  lemma {:induction false} SweepTableFull(v: View, lvl: nat, base: nat, c: Cur, n: nat)
    requires lvl <= 1 && IndexOk(c) && BaseOk(lvl, base)
    requires c.size == n * PAGESZ && n > 0
    requires Full(v, base + Start(c, lvl), Part(c, lvl, n))
    ensures Exact(SweepTable(v, lvl, base, c), lvl, base, c, n)
    decreases 2 - lvl, 0, ENTRIES - ChildIdx(c, lvl)
  {
    hide SweepTable, SweepEntry, Exact, Full, Start;
    SweepTableStep(v, lvl, base, c);
    FullChild(v, lvl, base, c, n);
    var b := base + ChildIdx(c, lvl) * Cover(lvl + 1);
    SweepFull(v, lvl + 1, b, c, n);
    var w := SweepEntry(v, lvl + 1, b, c);
    var c' := Advance(w.cur, lvl);
    if ChildIdx(c, lvl) + 1 == ENTRIES {
      ExactLast(w, lvl, base, c, n);
    } else if n == Part(c, lvl + 1, n) {
      ExactDone(w, lvl, base, c, n);
      SweepTableStep(v, lvl, base, c');
    } else {
      FullStep(v, w, lvl, base, c, n);
      SweepTableFull(v, lvl, base, c', n - Part(c, lvl + 1, n));
      ExactStep(w, SweepTable(v, lvl, base, c'), lvl, base, c, n);
    }
  }
}
