/**
 Value-level view of the page map: the flat memory that holds the table pages and the root
 entries, who owns which table page, the two-level walk, and the invariant of every reachable map.
 */
module PageState {
  import opened Common
  import opened PageEntry

  const PHYSPAGES_MAX: nat := 5
  const PM_AREA: nat := 0x10_0000
  const AREA_FRAME: nat := 0x100
  /** Root entries follow the table pages in the flat memory. */
  const ROOTS: nat := 5120

  /**
   `pages` is `physpages[].paddr`, `mem` the words of the table pages followed by one root entry per
   address space. `kind` and `parent` record, for each table page in use, its level and the address
   of the entry that points to it; `live` are the spaces whose directory has not been freed.
   */
  datatype State = State(pages: seq<nat>, mem: seq<Pme>, kind: seq<nat>, parent: seq<nat>, live: set<nat>)

  predicate Used(st: State, k: int) {
    0 <= k < |st.pages| && st.pages[k] != 0
  }

  predicate Shape(st: State) {
    && |st.pages| == |st.kind| == |st.parent| == PHYSPAGES_MAX
    && |st.mem| >= ROOTS
    && (forall k :: 0 <= k < PHYSPAGES_MAX && st.pages[k] != 0 ==> st.pages[k] == PM_AREA + k * PAGESZ)
    && (forall r :: r in st.live ==> ROOTS + r < |st.mem|)
  }

  /** Level of the entry at address `a`; 3 when no live map holds an entry there. */
  function Lvl(st: State, a: nat): nat
    requires Shape(st)
  {
    if a >= ROOTS then (if a - ROOTS in st.live then 0 else 3)
    else if Used(st, a / ENTRIES) then st.kind[a / ENTRIES]
    else 3
  }

  /** Number of the table page an entry points to. */
  function Idx(e: Pme): int {
    e.frame - AREA_FRAME
  }

  predicate LinksTo(st: State, a: nat, k: int)
    requires Shape(st) && a < |st.mem|
  {
    && Used(st, k)
    && Idx(st.mem[a]) == k
    && IsPresent(st.mem[a], Lvl(st, a))
  }

  /** Every table page in use hangs below exactly the entry recorded as its parent. */
  ghost predicate Owned(st: State)
    requires Shape(st)
  {
    forall k :: Used(st, k) ==>
      && 1 <= st.kind[k] <= 2
      && st.parent[k] < |st.mem|
      && Lvl(st, st.parent[k]) + 1 == st.kind[k]
      && LinksTo(st, st.parent[k], k)
  }

  /** Every present root or directory entry points to a table page in use, of the next level, that it owns. */
  ghost predicate Linked(st: State)
    requires Shape(st)
  {
    forall a :: 0 <= a < |st.mem| && Lvl(st, a) <= 1 && IsPresent(st.mem[a], Lvl(st, a)) ==>
      && Used(st, Idx(st.mem[a]))
      && st.kind[Idx(st.mem[a])] == Lvl(st, a) + 1
      && st.parent[Idx(st.mem[a])] == a
  }

  /** The user and write bits of a present leaf are also set in its directory entry. */
  ghost predicate RightsCovered(st: State)
    requires Shape(st) && Owned(st)
  {
    forall a :: 0 <= a < ROOTS && Lvl(st, a) == 2 && HasPresentBit(st.mem[a]) ==>
      RightsWithin(st.mem[a], st.mem[st.parent[a / ENTRIES]])
  }

  /** Root entries of live spaces carry none but the flags of CR3, and so no present bit. */
  ghost predicate RootsPlain(st: State)
    requires Shape(st)
  {
    forall r :: r in st.live ==> PlainRoot(st.mem[ROOTS + r])
  }

  ghost predicate Inv(st: State) {
    Shape(st) && Owned(st) && Linked(st) && RightsCovered(st) && RootsPlain(st)
  }

  // ---------------------------------------------------------------------------------------------
  // The processor's walk

  /** Address of directory slot `i` of space `r`, or -1 when the space has no directory. */
  function DirSlot(st: State, r: nat, i: nat): int
    requires |st.mem| >= ROOTS && ROOTS + r < |st.mem| && i < ENTRIES
  {
    var d := Idx(st.mem[ROOTS + r]);
    if st.mem[ROOTS + r] == EMPTY || d < 0 || PHYSPAGES_MAX <= d then -1 else d * ENTRIES + i
  }

  function Pde(st: State, r: nat, i: nat): Pme
    requires |st.mem| >= ROOTS && ROOTS + r < |st.mem| && i < ENTRIES
  {
    if DirSlot(st, r, i) < 0 then EMPTY else st.mem[DirSlot(st, r, i)]
  }

  /** Address of the page table entry the processor uses for page `p`, or -1. */
  function LeafAddr(st: State, r: nat, p: nat): int
    requires |st.mem| >= ROOTS && ROOTS + r < |st.mem| && p < VPAGES
  {
    var pde := Pde(st, r, p / ENTRIES);
    var t := Idx(pde);
    if !HasPresentBit(pde) || t < 0 || PHYSPAGES_MAX <= t then -1
    else t * ENTRIES + p % ENTRIES
  }

  function Walk(st: State, r: nat, p: nat): Option<Pme>
    requires |st.mem| >= ROOTS && ROOTS + r < |st.mem| && p < VPAGES
  {
    var a := LeafAddr(st, r, p);
    if a < 0 || !HasPresentBit(st.mem[a]) then None else Some(st.mem[a])
  }

  /** Access rights as the processor combines them: the AND over the levels. */
  function EffectiveRights(st: State, r: nat, p: nat): Attr
    requires |st.mem| >= ROOTS && ROOTS + r < |st.mem| && p < VPAGES
  {
    match Walk(st, r, p)
    case None => 0
    case Some(pte) => Pde(st, r, p / ENTRIES).attr & pte.attr & RIGHTS
  }

  // ---------------------------------------------------------------------------------------------
  // Where an entry sits in its address space

  /** The address space an entry belongs to. */
  function SpaceOf(st: State, a: nat): int
    requires Shape(st)
  {
    match Lvl(st, a)
    case 0 => a - ROOTS
    case 1 => st.parent[a / ENTRIES] - ROOTS
    case 2 => if st.parent[a / ENTRIES] < ROOTS then st.parent[st.parent[a / ENTRIES] / ENTRIES] - ROOTS else -1
    case _ => -1
  }

  /** First virtual page an entry covers. */
  function Base(st: State, a: nat): nat
    requires Shape(st)
  {
    match Lvl(st, a)
    case 1 => (a % ENTRIES) * ENTRIES
    case 2 => (st.parent[a / ENTRIES] % ENTRIES) * ENTRIES + a % ENTRIES
    case _ => 0
  }

  function Cover(lvl: nat): nat {
    match lvl
    case 0 => VPAGES
    case 1 => ENTRIES
    case _ => 1
  }

  // ---------------------------------------------------------------------------------------------
  // Effect of map and unmap

  ghost predicate SameWalks(s: State, s': State)
    requires Shape(s) && Shape(s') && |s'.mem| == |s.mem| && s'.live <= s.live
  {
    forall r, p :: r in s'.live && 0 <= p < VPAGES ==> Walk(s', r, p) == Walk(s, r, p)
  }

  /** Leaf entry for the `i`-th page of a range that starts at physical address `paddr`. */
  function LeafFor(paddr: Word, i: nat, flags: Attr): Pme
    requires paddr % PAGESZ == 0
  {
    Pack((paddr + i * PAGESZ) % TWO32, flags | PRESENT, 2)
  }

  /** Table pages in use stay in use, below the same entry. */
  ghost predicate Grew(s: State, s': State) {
    && Shape(s) && Shape(s') && |s'.mem| == |s.mem| && s'.live == s.live
    && forall k :: Used(s, k) ==> Used(s', k) && s'.kind[k] == s.kind[k] && s'.parent[k] == s.parent[k]
  }

  /** Pages [g, g+m) of space `r` now map to consecutive frames from `paddr`; every other page of every
      live space translates as before. */
  ghost predicate RangeMapped(s: State, s': State, r: nat, g: nat, m: nat, paddr: Word, flags: Attr)
    requires Shape(s) && Shape(s') && |s'.mem| == |s.mem| && s'.live == s.live
    requires paddr % PAGESZ == 0
  {
    forall r', p :: r' in s.live && 0 <= p < VPAGES ==>
      Walk(s', r', p) == if r' == r && g <= p < g + m then Some(LeafFor(paddr, p - g, flags)) else Walk(s, r', p)
  }

  /** No page table (as opposed to a directory) is without a present entry. */
  ghost predicate NoEmptyTables(st: State)
    requires Shape(st)
  {
    NoEmptyTablesBut(st, PHYSPAGES_MAX)
  }

  ghost predicate NoEmptyTablesBut(st: State, x: nat)
    requires Shape(st)
  {
    forall k :: Used(st, k) && st.kind[k] == 2 && k != x ==> !TableEmpty(st, k)
  }

  ghost predicate TableEmpty(s: State, k: nat)
    requires Shape(s) && k < PHYSPAGES_MAX
  {
    forall a :: 0 <= a < ROOTS && a / ENTRIES == k ==> !HasPresentBit(s.mem[a])
  }

  /** Value of the shared cursor: the two table indices, the next physical address, the bytes left. */
  datatype Cur = Cur(dirIdx: nat, tblIdx: nat, paddr: Word, size: Word)

  predicate CurOk(c: Cur) {
    c.dirIdx < ENTRIES && c.tblIdx < ENTRIES && c.paddr % PAGESZ == 0 && c.size % PAGESZ == 0
  }

  /** Offset, in pages, of the cursor inside the region an entry of level `lvl` covers. */
  function Start(c: Cur, lvl: nat): nat {
    match lvl
    case 0 => c.dirIdx * ENTRIES + c.tblIdx
    case 1 => c.tblIdx
    case _ => 0
  }

  /** No root entry but possibly the one at `e` was written. */
  ghost predicate RootsKept(s: State, s': State, e: nat) {
    |s'.mem| == |s.mem| && forall a :: ROOTS <= a < |s.mem| && a != e ==> s'.mem[a] == s.mem[a]
  }

  /** What a call of the recursive map below entry `e` has done so far: it has mapped `m` pages from the
      cursor's starting position on, and moved the cursor's address and size by as much. */
  ghost predicate MapProgress(s0: State, c0: Cur, s: State, c: Cur, m: nat, lvl: nat, e: nat, flags: Attr) {
    && Shape(s0) && CurOk(c0) && CurOk(c)
    && Inv(s) && Grew(s0, s) && RootsKept(s0, s, e)
    && 0 <= SpaceOf(s0, e)
    && RangeMapped(s0, s, SpaceOf(s0, e), Base(s0, e) + Start(c0, lvl), m, c0.paddr, flags)
    && c.paddr == (c0.paddr + m * PAGESZ) % TWO32
    && c.size + m * PAGESZ == c0.size
    && m + Start(c0, lvl) <= Cover(lvl)
  }

  /** Index of the cursor into the tables below an entry of level `lvl`. */
  function ChildIdx(c: Cur, lvl: nat): nat {
    if lvl == 0 then c.dirIdx else c.tblIdx
  }

  /** The index moves to the next entry and wraps at the end of the table. */
  function Advance(c: Cur, lvl: nat): Cur {
    var next := if ChildIdx(c, lvl) + 1 == ENTRIES then 0 else ChildIdx(c, lvl) + 1;
    if lvl == 0 then c.(dirIdx := next) else c.(tblIdx := next)
  }

  /** No page table covers page `p` of space `r`. */
  predicate TableMissing(s: State, r: nat, p: nat) {
    |s.mem| >= ROOTS && ROOTS + r < |s.mem| && p < VPAGES && !HasPresentBit(Pde(s, r, p / ENTRIES))
  }

  /** A failed call got as far as a page of its entry without a page table; unless the space has not even got a
      directory, that page is one it was asked to map. */
  ghost predicate MapStuck(s0: State, c0: Cur, s: State, c: Cur, m: nat, lvl: nat, e: nat)
    requires Shape(s0)
  {
    && 0 <= SpaceOf(s0, e) && TableMissing(s, SpaceOf(s0, e), Base(s0, e) + Start(c0, lvl) + m)
    && (c.size > 0 || (lvl == 0 && e < |s.mem| && s.mem[e] == EMPTY))
  }

  /** A successful call has used up the size, or the rest of what its entry covers and reset its indices. */
  predicate MapComplete(c0: Cur, c: Cur, m: nat, lvl: nat) {
    c.size > 0 ==> Start(c, lvl) == 0 && m + Start(c0, lvl) == Cover(lvl)
  }
}
