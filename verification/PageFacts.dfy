/** Map and unmap in plain numbers: frames, attribute bits, sizes and memory words, as a caller and the processor
    see them. */
module PageFacts {
  import opened Common
  import opened PageEntry
  import opened PageState
  import opened PageSteps
  import opened Sweep
  import opened UnmapSteps
  import opened PageTheorems
  import opened PageRuns
  import opened UnmapHoles

  /** The processor's two steps through memory, word by word. */
  lemma WalkInMemory(s: State, r: nat, p: nat, e: Pme)
    requires Inv(s) && r in s.live && p < 0x10_0000
    ensures Walk(s, r, p) == Some(e) <==>
      && s.mem[5120 + r] != Pme(0, 0)
      && var d := s.mem[5120 + r].frame - 0x100;
      && 0 <= d < 5 && s.mem[d * 1024 + p / 1024].attr & 1 != 0
      && var t := s.mem[d * 1024 + p / 1024].frame - 0x100;
      && 0 <= t < 5 && s.mem[t * 1024 + p % 1024].attr & 1 != 0
      && e == s.mem[t * 1024 + p % 1024]
  {
    hide Linked, RightsCovered, RootsPlain, Owned;
    PageSplit(p);
  }

  /** The leaf of the `i`-th page. */
  lemma LeafParts(paddr: Word, i: nat, flags: Attr)
    ensures var e := LeafFor(AlignDown(paddr), i, flags);
      e.frame == (paddr / 4096 + i) % 0x10_0000 && e.attr == flags | 1
  {
    var a := AlignDown(paddr) + i * PAGESZ;
    assert a == (paddr / 4096 + i) * 4096;
    WrapPages(paddr / 4096 + i);
  }

  lemma WrapPages(x: nat)
    ensures (x * 4096) % 0x1_0000_0000 == (x % 0x10_0000) * 4096
  {
    var q, m := x / 0x10_0000, x % 0x10_0000;
    assert x * 4096 == q * 0x1_0000_0000 + m * 4096;
  }

  /** Every page of the range goes to its own frame, counted from that of the physical address, with the flags and
      the present bit, and the processor grants it their user and write bits; all other pages of all spaces stay. */
  lemma MapExact(s: State, s': State, r: nat, vaddr: Word, paddr: Word, size: Word, flags: Attr, res: int, m: nat)
    requires Inv(s) && r in s.live && MapSpec(s, s', r, vaddr, paddr, size, flags, res, m)
    ensures res == 0 || res == -5
    ensures var pages, below := (size + 4095) % 0x1_0000_0000 / 4096, 0x10_0000 - vaddr / 4096;
      m <= pages && m <= below && (res == 0 ==> m == pages || m == below)
    ensures s'.live == s.live && |s'.mem| == |s.mem|
    ensures forall p :: vaddr / 4096 <= p < vaddr / 4096 + m ==>
      && Walk(s', r, p).Some?
      && Walk(s', r, p).value.frame == (paddr / 4096 + (p - vaddr / 4096)) % 0x10_0000
      && Walk(s', r, p).value.attr == flags | 1
      && EffectiveRights(s', r, p) == flags & 6
    ensures forall r', p ::
      r' in s.live && 0 <= p < 0x10_0000 && !(r' == r && vaddr / 4096 <= p < vaddr / 4096 + m) ==>
        Walk(s', r', p) == Walk(s, r', p) && EffectiveRights(s', r', p) == EffectiveRights(s, r', p)
  {
    hide Walk, Owned, Linked, RightsCovered, RootsPlain, NoEmptyTables, LeafFor, TableMissing, EffectiveRights;
    RoundedPages(size);
    forall p | vaddr / 4096 <= p < vaddr / 4096 + m
      ensures Walk(s', r, p) == Some(LeafFor(AlignDown(paddr), p - vaddr / 4096, flags))
      ensures LeafFor(AlignDown(paddr), p - vaddr / 4096, flags).frame
           == (paddr / 4096 + (p - vaddr / 4096)) % 0x10_0000
      ensures LeafFor(AlignDown(paddr), p - vaddr / 4096, flags).attr == flags | 1
    {
      LeafParts(paddr, p - vaddr / 4096, flags);
    }
    forall r', p | r' in s.live && 0 <= p < 0x10_0000
      ensures EffectiveRights(s', r', p) ==
        if r' == r && vaddr / 4096 <= p < vaddr / 4096 + m then flags & 6 else EffectiveRights(s, r', p)
    {
      MapGrants(s, s', r, vaddr, paddr, size, flags, res, m, r', p);
    }
  }

  lemma RoundedPages(size: Word)
    ensures PageCount(size) == (size + 4095) % 0x1_0000_0000 / 4096
  {
  }

  // ---------------------------------------------------------------------------------------------
  // Over whole runs

  /** The operation maps page `p` of space `r`. */
  predicate Covers(op: Op, r: nat, p: nat) {
    op.MapOp? && op.r == r && op.vaddr / 4096 <= p < op.vaddr / 4096 + op.m
  }

  /** Operation `i` mapped page `p`, no later one mapped it again, and it stayed mapped through all of them. */
  ghost predicate LastMappedBy(states: seq<State>, ops: seq<Op>, r: nat, p: nat, i: nat) {
    && i < |ops| && |states| == |ops| + 1 && Covers(ops[i], r, p)
    && forall j :: i < j < |ops| ==> !Covers(ops[j], r, p) && Mapped(states[j + 1], r, p)
  }

  /** Page `p` of space `r` is as operation `op` asked for it. */
  ghost predicate AsAsked(s: State, op: Op, r: nat, p: nat) {
    && op.MapOp? && Mapped(s, r, p)
    && Walk(s, r, p).value.frame == (op.paddr / 4096 + (p - op.vaddr / 4096)) % 0x10_0000
    && Walk(s, r, p).value.attr == op.flags | 1
    && EffectiveRights(s, r, p) == op.flags & 6
  }

  /** One operation's effect on one page of one space. */
  lemma StepOnPage(s: State, op: Op, s': State, r: nat, p: nat)
    requires Inv(s) && NoEmptyTables(s) && Step(s, op, s') && r in s'.live && p < 0x10_0000
    ensures r in s.live && Inv(s')
    ensures Covers(op, r, p) ==> AsAsked(s', op, r, p)
    ensures !Covers(op, r, p) && Mapped(s', r, p) ==>
      Mapped(s, r, p) && Walk(s', r, p) == Walk(s, r, p) && EffectiveRights(s', r, p) == EffectiveRights(s, r, p)
  {
    hide Walk, Owned, Linked, RightsCovered, RootsPlain, NoEmptyTables, LeafFor, SweepEntry, Survives, Dangling,
         TableMissing, EffectiveRights;
    if op.MapOp? {
      MapExact(s, s', op.r, op.vaddr, op.paddr, op.size, op.flags, op.res, op.m);
    } else if Mapped(s', r, p) {
      assert Walk(s', r, p) == Walk(s, r, p);
      EffectiveRightsOfLeaf(s, r, p);
      EffectiveRightsOfLeaf(s', r, p);
    }
  }

  lemma RunFacts(states: seq<State>, ops: seq<Op>)
    requires Run(states, ops)
    ensures Inv(states[|ops|]) && NoEmptyTables(states[|ops|])
    ensures ops != [] ==> Step(states[|ops| - 1], ops[|ops| - 1], states[|ops|])
    ensures ops != [] ==> Run(states[..|ops|], ops[..|ops| - 1])
  {
    if ops != [] {
      assert Step(states[|ops| - 1], ops[|ops| - 1], states[|ops|]);
    }
  }

  /** In every run a page is mapped if and only if some map covered it and it was not taken away since; and then it is
      as the last such map asked. */
  lemma {:induction false} LastMapDecides(states: seq<State>, ops: seq<Op>, r: nat, p: nat)
    requires Run(states, ops) && r in states[|ops|].live && p < 0x10_0000
    ensures Mapped(states[|ops|], r, p) <==> exists i: nat :: LastMappedBy(states, ops, r, p, i)
    ensures forall i: nat :: LastMappedBy(states, ops, r, p, i) ==> AsAsked(states[|ops|], ops[i], r, p)
    decreases |ops|
  {
    hide Walk, Step, Inv, NoEmptyTables, Initial, Covers, Mapped, AsAsked, LastMappedBy;
    RunFacts(states, ops);
    var n := |ops|;
    forall i: nat | LastMappedBy(states, ops, r, p, i) ensures i < n {
      LastParts(states, ops, r, p, i);
    }
    if n == 0 {
      NothingMapped(states[0], r, p);
    } else {
      var op, ops', states' := ops[n - 1], ops[..n - 1], states[..n];
      RunFacts(states', ops');
      StepOnPage(states[n - 1], op, states[n], r, p);
      LastMapDecides(states', ops', r, p);
      forall i: nat | i < n && LastMappedBy(states, ops, r, p, i)
        ensures Mapped(states[n], r, p) && AsAsked(states[n], ops[i], r, p)
      {
        LastParts(states, ops, r, p, i);
        if i < n - 1 {
          LastPrefix(states, ops, r, p, i);
          SamePage(states[n - 1], states[n], ops[i], r, p);
        } else {
          AskedIsMapped(states[n], op, r, p);
        }
      }
      if Mapped(states[n], r, p) {
        if Covers(op, r, p) {
          LastIsNow(states, ops, r, p);
        } else {
          var i: nat :| LastMappedBy(states', ops', r, p, i);
          LastParts(states', ops', r, p, i);
          LastPrefix(states, ops, r, p, i);
        }
      }
    }
  }

  lemma LastParts(states: seq<State>, ops: seq<Op>, r: nat, p: nat, i: nat)
    requires LastMappedBy(states, ops, r, p, i)
    ensures i < |ops| && Covers(ops[i], r, p)
    ensures i < |ops| - 1 ==> !Covers(ops[|ops| - 1], r, p) && Mapped(states[|ops|], r, p)
  {
    hide Covers, Mapped;
  }

  lemma LastIsNow(states: seq<State>, ops: seq<Op>, r: nat, p: nat)
    requires ops != [] && |states| == |ops| + 1 && Covers(ops[|ops| - 1], r, p)
    ensures LastMappedBy(states, ops, r, p, |ops| - 1)
  {
    hide Covers, Mapped;
  }

  /** What the last operation leaves as it is. */
  lemma LastPrefix(states: seq<State>, ops: seq<Op>, r: nat, p: nat, i: nat)
    requires ops != [] && |states| == |ops| + 1 && i < |ops| - 1
    ensures LastMappedBy(states, ops, r, p, i) ==> LastMappedBy(states[..|ops|], ops[..|ops| - 1], r, p, i)
    ensures LastMappedBy(states[..|ops|], ops[..|ops| - 1], r, p, i) && !Covers(ops[|ops| - 1], r, p)
            && Mapped(states[|ops|], r, p) ==>
      LastMappedBy(states, ops, r, p, i)
  {
    hide Covers, Mapped;
    var n := |ops|;
    var ops', states' := ops[..n - 1], states[..n];
    assert forall j :: 0 <= j < n - 1 ==> ops'[j] == ops[j] && states'[j + 1] == states[j + 1];
  }

  lemma NothingMapped(s: State, r: nat, p: nat)
    requires Initial(s) && r in s.live
    ensures !Mapped(s, r, p)
  {
  }

  lemma AskedIsMapped(s: State, op: Op, r: nat, p: nat)
    requires AsAsked(s, op, r, p)
    ensures Mapped(s, r, p)
  {
  }

  lemma SamePage(s: State, s': State, op: Op, r: nat, p: nat)
    requires AsAsked(s, op, r, p) && Mapped(s', r, p) && Walk(s', r, p) == Walk(s, r, p)
    requires EffectiveRights(s', r, p) == EffectiveRights(s, r, p)
    ensures AsAsked(s', op, r, p)
  {
  }

  // ---------------------------------------------------------------------------------------------
  // Unmap, by counting pages

  ghost predicate HasTable(s: State, r: nat, i: nat) {
    |s.mem| >= 5120 && 5120 + r < |s.mem| && i < 1024 && Pde(s, r, i).attr & 1 != 0
  }

  ghost function MappedIn(s: State, r: nat, a: nat, p: nat): set<nat> {
    set q: nat | a <= q < p && Mapped(s, r, q)
  }

  /** Pages without a translation in tables that exist. */
  ghost function HolesIn(s: State, r: nat, a: nat, p: nat): set<nat> {
    set q: nat | a <= q < p && HasTable(s, r, q / 1024) && !Mapped(s, r, q)
  }

  /** What the pages from `a` up to `p` take from the size. */
  ghost function Spent(s: State, r: nat, a: nat, p: nat): nat {
    4096 * |MappedIn(s, r, a, p)| + 0x40_0000 * |HolesIn(s, r, a, p)|
  }

  lemma {:induction false} CostCounts(s: State, r: nat, a: nat, p: nat)
    requires Inv(s) && r in s.live && a <= p <= 0x10_0000
    ensures Cost(ViewOf(s, r), a, p) == Spent(s, r, a, p)
    decreases p - a
  {
    hide ViewOf, Mapped, HasTable, Inv, Spent;
    SpentStep(s, r, a, p);
    if a < p {
      CostCounts(s, r, a + 1, p);
      PageInView(s, r, a);
    }
  }

  lemma SpentStep(s: State, r: nat, a: nat, p: nat)
    requires a <= p
    ensures Spent(s, r, p, p) == 0
    ensures a < p ==>
      var cost := if Mapped(s, r, a) then 4096 else if HasTable(s, r, a / 1024) then 0x40_0000 else 0;
      Spent(s, r, a, p) == Spent(s, r, a + 1, p) + cost
  {
    hide Mapped, HasTable;
    assert MappedIn(s, r, p, p) == {} && HolesIn(s, r, p, p) == {};
    if a < p {
      var m, h := MappedIn(s, r, a + 1, p), HolesIn(s, r, a + 1, p);
      assert MappedIn(s, r, a, p) == if Mapped(s, r, a) then m + {a} else m;
      assert HolesIn(s, r, a, p) == if HasTable(s, r, a / 1024) && !Mapped(s, r, a) then h + {a} else h;
    }
  }

  lemma PageInView(s: State, r: nat, p: nat)
    requires Inv(s) && r in s.live && p < 0x10_0000
    ensures p in ViewOf(s, r).pages <==> Mapped(s, r, p)
    ensures p / 1024 in ViewOf(s, r).dirs <==> HasTable(s, r, p / 1024)
    ensures Mapped(s, r, p) ==> HasTable(s, r, p / 1024)
  {
    if Mapped(s, r, p) { MappedInView(s, r, p); }
  }

  /** Where the walk from page `g` on starts: at the same place of the next table that exists, if there is one. */
  ghost predicate StartsAt(s: State, r: nat, g: nat, a: nat) {
    && g / 1024 <= a / 1024 <= 1024 && a % 1024 == g % 1024
    && (a / 1024 < 1024 ==> HasTable(s, r, a / 1024))
    && forall i :: g / 1024 <= i < a / 1024 ==> !HasTable(s, r, i)
  }

  lemma FirstIs(s: State, r: nat, g: nat, a: nat)
    requires Inv(s) && r in s.live && g < 0x10_0000 && StartsAt(s, r, g, a)
    ensures First(ViewOf(s, r), g) == a
  {
    var v, i := ViewOf(s, r), a / 1024;
    assert i < 1024 ==> i in v.dirs;
    assert forall x: nat :: g / 1024 <= x < i ==> x !in v.dirs by {
      forall x: nat | g / 1024 <= x < i ensures x !in v.dirs {
        assert !HasTable(s, r, x);
      }
    }
    hide ViewOf, HasTable;
  }

  lemma WholePages(size: Word)
    requires size < 0xffff_efff
    ensures UnmapSize(size) == (size + 4095) / 4096 * 4096 && UnmapSize(size) % PAGESZ == 0
  {
  }

  /** A call of addrspc_unmap that rounds its size up to pages takes away exactly the mapped pages at which something
      is left of the size, when a mapped page costs one page and a hole in a table a whole table; nothing else
      changes, in any space. */
  lemma UnmapByCount(s: State, s': State, r: nat, vaddr: Word, size: Word, a: nat)
    requires Inv(s) && UnmapSpec(s, s', r, vaddr, size) && size < 0xffff_efff && StartsAt(s, r, vaddr / 4096, a)
    ensures forall p :: Mapped(s, r, p) ==>
      (!Mapped(s', r, p) <==> a <= p && Spent(s, r, a, p) < (size + 4095) / 4096 * 4096)
    ensures forall r', p :: r' in s'.live && 0 <= p < 0x10_0000 && (r' != r || Mapped(s', r, p)) ==>
      Walk(s', r', p) == Walk(s, r', p)
  {
    hide Walk, Owned, Linked, RightsCovered, RootsPlain, NoEmptyTables, ViewOf, Survives, Dangling,
         SweepEntry, HasTable, Spent, First, Left, UnmapSize;
    var v := ViewOf(s, r);
    FirstIs(s, r, vaddr / 4096, a);
    WholePages(size);
    forall p | Mapped(s, r, p)
      ensures !Mapped(s', r, p) <==> a <= p && Spent(s, r, a, p) < (size + 4095) / 4096 * 4096
    {
      PageInView(s, r, p);
      UnmapRemoves(s, s', r, vaddr, size, p);
      LeftOfPages(v, UnmapSize(size), a, p);
      if a <= p { CostCounts(s, r, a, p); }
    }
  }

  /** On a range whose pages are all mapped those are the pages of the range. */
  lemma UnmapWholeRange(s: State, s': State, r: nat, vaddr: Word, size: Word, n: nat)
    requires size < 0xffff_efff && n == (size + 4095) / 4096 && vaddr / 4096 + n <= 0x10_0000
    requires forall p: nat :: vaddr / 4096 <= p < vaddr / 4096 + n ==> Mapped(s, r, p)
    requires Inv(s) && UnmapSpec(s, s', r, vaddr, size)
    ensures forall p: nat :: Mapped(s, r, p) ==> (!Mapped(s', r, p) <==> vaddr / 4096 <= p < vaddr / 4096 + n)
  {
    hide Inv, NoEmptyTables, Walk, SweepEntry, Survives, StartCur, UnmapSize, Dangling, ViewOf;
    RoundedPages(size);
    hide PageCount;
    forall p | vaddr / PAGESZ <= p < vaddr / PAGESZ + PageCount(size) ensures Walk(s, r, p).Some? {
      assert Mapped(s, r, p);
    }
    UnmapExact(s, s', r, vaddr, size);
    forall p: nat | Mapped(s, r, p) ensures !Mapped(s', r, p) <==> vaddr / 4096 <= p < vaddr / 4096 + n {
      assert p in ViewOf(s, r).pages by { ViewHas(s, r, p); }
      if r in s'.live {
        assert Walk(s', r, p) == if p in Range(vaddr / PAGESZ, PageCount(size)) then None else Walk(s, r, p);
      }
    }
  }

  lemma ViewHas(s: State, r: nat, p: nat)
    requires Mapped(s, r, p)
    ensures |s.mem| >= 5120 && 5120 + r < |s.mem| && p in ViewOf(s, r).pages && s.mem[5120 + r] != EMPTY
  {
    hide HasPresentBit;
    assert LeafAddr(s, r, p) >= 0;
  }

  /** Cleaning up a space leaves a page mapped exactly when there is a hole below it at which less than a table is
      left of the largest size, counted modulo 2^32. */
  lemma CleanupByCount(s: State, s': State, r: nat, p: nat)
    requires Inv(s) && UnmapSpec(s, s', r, 0, 0xffff_ffff) && Mapped(s, r, p)
    ensures Mapped(s', r, p) <==>
      exists h: nat :: h < p && HasTable(s, r, h / 1024) && !Mapped(s, r, h)
        && (0xffff_ffff - Spent(s, r, 0, h)) % 0x1_0000_0000 < 0x40_0000
  {
    hide Owned, Linked, RightsCovered, RootsPlain, UnmapSpec, ViewOf, Spent, HasTable, Cost, Walk;
    PageInView(s, r, p);
    CleanupLeaves(s, s', r, p);
    forall h: nat | h < p
      ensures StopsCleanup(ViewOf(s, r), h) <==>
        && HasTable(s, r, h / 1024) && !Mapped(s, r, h)
        && (0xffff_ffff - Spent(s, r, 0, h)) % 0x1_0000_0000 < 0x40_0000
    {
      CostCounts(s, r, 0, h);
      PageInView(s, r, h);
    }
  }
}
