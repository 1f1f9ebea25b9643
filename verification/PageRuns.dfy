/** Whole runs of map and unmap over many address spaces refine one plain function from page to leaf per space. */
module PageRuns {
  import opened Common
  import opened PageEntry
  import opened PageState
  import opened PageSteps
  import opened Sweep
  import opened UnmapSteps
  import opened PageTheorems

  /** The abstract address space: which pages translate, and to what. */
  type Trans = map<nat, Pme>

  datatype Op =
    | MapOp(r: nat, vaddr: Word, paddr: Word, size: Word, flags: Attr, res: int, m: nat)
    | UnmapOp(r: nat, vaddr: Word, size: Word)

  ghost predicate Step(s: State, op: Op, s': State) {
    op.r in s.live &&
    match op
    case MapOp(r, vaddr, paddr, size, flags, res, m) => MapSpec(s, s', r, vaddr, paddr, size, flags, res, m)
    case UnmapOp(r, vaddr, size) => UnmapSpec(s, s', r, vaddr, size)
  }

  ghost predicate Initial(s: State) {
    && Inv(s) && NoEmptyTables(s)
    && forall r, p :: r in s.live && 0 <= p < VPAGES ==> Walk(s, r, p) == None
  }

  ghost predicate Run(states: seq<State>, ops: seq<Op>) {
    && |states| == |ops| + 1
    && Initial(states[0])
    && forall i :: 0 <= i < |ops| ==> Step(states[i], ops[i], states[i + 1])
  }

  // ---------------------------------------------------------------------------------------------
  // The abstract operations

  function MapRange(t: Trans, g: nat, m: nat, paddr: Word, flags: Attr): Trans
    requires paddr % PAGESZ == 0
  {
    map p | p in t.Keys + Range(g, m) :: if g <= p < g + m then LeafFor(paddr, p - g, flags) else t[p]
  }

  /** A directory slot is present exactly when one of its pages is. */
  function ViewOfTrans(t: Trans): View {
    View(true, set p | p in t :: p / ENTRIES, t.Keys)
  }

  function UnmapRange(t: Trans, vaddr: Word, size: Word): Trans {
    t - SweepEntry(ViewOfTrans(t), 0, 0, StartCur(vaddr, UnmapSize(size))).pages
  }

  function Apply(t: Trans, op: Op, r: nat): Trans {
    if op.r != r then t
    else match op
      case MapOp(_, vaddr, paddr, size, flags, res, m) => MapRange(t, vaddr / PAGESZ, m, AlignDown(paddr), flags)
      case UnmapOp(_, vaddr, size) => UnmapRange(t, vaddr, size)
  }

  function Replay(ops: seq<Op>, r: nat): Trans {
    if ops == [] then map[] else Apply(Replay(ops[..|ops| - 1], r), ops[|ops| - 1], r)
  }

  // ---------------------------------------------------------------------------------------------
  // Refinement

  ghost function TransOf(s: State, r: nat): Trans
    requires |s.mem| >= ROOTS && ROOTS + r < |s.mem|
  {
    map p | 0 <= p < VPAGES && Walk(s, r, p).Some? :: Walk(s, r, p).value
  }

  lemma {:induction false} SweepSubset(v: View, lvl: nat, base: nat, c: Cur)
    requires lvl <= 2 && IndexOk(c)
    ensures SweepEntry(v, lvl, base, c).pages <= v.pages
    decreases 2 - lvl, 1, 0
  {
    if lvl <= 1 && Has(v, lvl, base) {
      SweepTableSubset(v, lvl, base, c);
    }
  }

  lemma {:induction false} SweepTableSubset(v: View, lvl: nat, base: nat, c: Cur)
    requires lvl <= 1 && IndexOk(c)
    ensures SweepTable(v, lvl, base, c).pages <= v.pages
    decreases 2 - lvl, 0, ENTRIES - ChildIdx(c, lvl)
  {
    if c.size != 0 {
      var b := base + ChildIdx(c, lvl) * Cover(lvl + 1);
      SweepSubset(v, lvl + 1, b, c);
      if ChildIdx(c, lvl) + 1 < ENTRIES {
        SweepTableSubset(v, lvl, base, Advance(SweepEntry(v, lvl + 1, b, c).cur, lvl));
      }
    }
  }

  /** With no empty page table, the translation alone tells which directory slots are present. */
  lemma DirsFromPages(s: State, r: nat)
    requires Inv(s) && NoEmptyTables(s) && r in s.live
    ensures ViewOf(s, r).dirs == ViewOfTrans(TransOf(s, r)).dirs && ViewOf(s, r).pages == TransOf(s, r).Keys
  {
    var v, t := ViewOf(s, r), TransOf(s, r);
    forall i | i in v.dirs ensures i in ViewOfTrans(t).dirs {
      var p := SlotHasPage(s, r, i);
      assert p in t;
    }
    forall i | i in ViewOfTrans(t).dirs ensures i in v.dirs {
      var p :| p in t && p / ENTRIES == i;
      MappedInView(s, r, p);
    }
  }

  lemma SlotHasPage(s: State, r: nat, i: nat) returns (p: nat)
    requires Inv(s) && NoEmptyTables(s) && r in s.live && i < ENTRIES && HasPresentBit(Pde(s, r, i))
    ensures p < VPAGES && p / ENTRIES == i && Walk(s, r, p).Some?
  {
    TableOf(s, r, i);
    DirSlotPlace(s, r, i);
    var r', p' := TableHasPage(s, Idx(Pde(s, r, i)));
    LeafSlot(s, r', p');
    DirSlotPlace(s, r', p' / ENTRIES);
    p := p';
  }

  /** The concrete unmap sweeps the same pages as the abstract one. */
  lemma SameSweep(s: State, r: nat, c: Cur)
    requires Inv(s) && NoEmptyTables(s) && r in s.live && IndexOk(c)
    ensures SweepEntry(ViewOf(s, r), 0, 0, c).pages == SweepEntry(ViewOfTrans(TransOf(s, r)), 0, 0, c).pages
  {
    hide SweepEntry, SweepTable, Owned, Linked, RightsCovered;
    var v, v' := ViewOf(s, r), ViewOfTrans(TransOf(s, r));
    DirsFromPages(s, r);
    if v.root {
      assert v == v';
    } else {
      SweepSubset(v, 0, 0, c);
      SweepSubset(v', 0, 0, c);
      assert v.pages == {} by {
        forall p | p in v.pages ensures false {
          MappedInView(s, r, p);
        }
      }
    }
  }

  lemma StepRefines(s: State, op: Op, s': State, r: nat)
    requires Inv(s) && NoEmptyTables(s) && Step(s, op, s') && r in s'.live
    ensures r in s.live && TransOf(s', r) == Apply(TransOf(s, r), op, r)
  {
    hide Walk, Owned, Linked, RightsCovered, RootsPlain, LeafFor, SweepEntry, Survives, Dangling, TableMissing;
    var t, t', a := TransOf(s, r), TransOf(s', r), Apply(TransOf(s, r), op, r);
    if op.r == r && op.UnmapOp? {
      SameSweep(s, r, StartCur(op.vaddr, UnmapSize(op.size)));
    }
    assert t'.Keys == a.Keys;
    assert forall p :: p in t' ==> t'[p] == a[p];
  }

  /** For every run: each live space translates exactly as replaying the operations on plain maps says,
      and the processor grants exactly the rights of that leaf. */
  lemma {:induction false} RunRefines(states: seq<State>, ops: seq<Op>, r: nat)
    requires Run(states, ops) && r in states[|ops|].live
    ensures Inv(states[|ops|]) && NoEmptyTables(states[|ops|])
    ensures TransOf(states[|ops|], r) == Replay(ops, r)
    ensures forall p :: 0 <= p < VPAGES ==>
              EffectiveRights(states[|ops|], r, p)
              == if p in Replay(ops, r) then Replay(ops, r)[p].attr & RIGHTS else 0
  {
    hide Walk, Owned, Linked, RightsCovered, LeafFor, SweepEntry, Apply;
    var n := |ops|;
    if n == 0 {
      assert TransOf(states[0], r) == map[];
    } else {
      var ops', states' := ops[..n - 1], states[..n];
      var s, s' := states[n - 1], states[n];
      assert Step(states[n - 1], ops[n - 1], states[n]);
      assert r in s.live;
      RunRefines(states', ops', r);
      StepRefines(s, ops[n - 1], s', r);
    }
    forall p | 0 <= p < VPAGES
      ensures EffectiveRights(states[n], r, p) == if p in Replay(ops, r) then Replay(ops, r)[p].attr & RIGHTS else 0
    {
      if Walk(states[n], r, p).Some? {
        EffectiveRightsOfLeaf(states[n], r, p);
        assert p in TransOf(states[n], r);
      }
    }
  }

  // ---------------------------------------------------------------------------------------------
  // Who reaches a table page

  /** An entry of a table page in use serves one page of one live space. */
  lemma LeavesApart(s: State, r: nat, p: nat, r': nat, p': nat)
    requires Inv(s) && r in s.live && r' in s.live && p < VPAGES && p' < VPAGES
    requires LeafAddr(s, r, p) == LeafAddr(s, r', p') >= 0
    ensures r == r' && p == p' && Used(s, LeafAddr(s, r, p) / ENTRIES)
  {
    LeafSlot(s, r, p);
    LeafSlot(s, r', p');
  }

  /** After every run, also one in which maps failed part-way: each allocated table page is reached from
      exactly one root or directory entry of a live space, no freed page is reachable, and no two spaces,
      and no two pages of one space, share an entry. */
  lemma TablesReachedOnce(states: seq<State>, ops: seq<Op>)
    requires Run(states, ops)
    ensures Inv(states[|ops|])
    ensures var s := states[|ops|];
      && (forall k :: Used(s, k) ==>
            && s.parent[k] < |s.mem| && Lvl(s, s.parent[k]) <= 1 && LinksTo(s, s.parent[k], k)
            && forall a :: 0 <= a < |s.mem| && Lvl(s, a) <= 1 && LinksTo(s, a, k) ==> a == s.parent[k])
      && (forall a :: 0 <= a < |s.mem| && Lvl(s, a) <= 1 && IsPresent(s.mem[a], Lvl(s, a)) ==> Used(s, Idx(s.mem[a])))
      && (forall r, p, r', p' :: (r in s.live && r' in s.live && 0 <= p < VPAGES && 0 <= p' < VPAGES
                                  && LeafAddr(s, r, p) >= 0 && LeafAddr(s, r, p) == LeafAddr(s, r', p'))
            ==> r == r' && p == p')
  {
    hide Walk, RightsCovered, NoEmptyTables, SweepEntry;
    var s := states[|ops|];
    assert |ops| > 0 ==> Step(states[|ops| - 1], ops[|ops| - 1], s);
    assert Inv(s);
    forall r, p, r', p' | r in s.live && r' in s.live && 0 <= p < VPAGES && 0 <= p' < VPAGES
      && LeafAddr(s, r, p) >= 0 && LeafAddr(s, r, p) == LeafAddr(s, r', p')
      ensures r == r' && p == p'
    {
      LeavesApart(s, r, p, r', p');
    }
  }
}
