/** `get_mem` and `free_mem`: the physical manager and the address space together. */
module MemModel {
  import opened Machine
  import opened PagingModel
  import P = PhysMemModel
  import PhysMem

  /** The regions of physical memory, and the pages that are mapped. */
  datatype Sys = Sys(pmm: P.State, vm: VMap)

  /** `Aborted` and `Faulted` are where the kernel stops. */
  datatype MemResult = MemSuccess | MemInvalid | MemNoPhysMem | MemNoVirtMem | Aborted | Faulted {
    predicate Stops() { Aborted? || Faulted? }
  }

  /** `get_mem`: result, address and state afterwards. */
  ghost function GetMem(sys: Sys, len: nat, perChunk: nat, chunkBytes: nat): (MemResult, nat, Sys) {
    var (mapped, vm) := PhysMem.GetMapping(sys.pmm, sys.vm, len, chunkBytes);
    var (pmm, r, page) := P.Get(sys.pmm, len, perChunk, mapped);
    if r == P.PmmSuccess then MapBlock(Sys(pmm, vm), page, len) else (MemNoPhysMem, 0, Sys(pmm, vm))
  }

  /** The part of `get_mem` that maps the block reserved; it ends by filling a page at the address. */
  ghost function MapBlock(sys: Sys, page: nat, len: nat): (MemResult, nat, Sys) {
    var (m, virt, vm) := MapRangeResult(sys.vm, AddressOf(page), len);
    match m
    case MapSuccess => (if PageNo(virt) in vm then MemSuccess else Faulted, virt, Sys(sys.pmm, vm))
    case NoVirtMem => (MemNoVirtMem, 0, Sys(sys.pmm, vm))
    case _ => (Aborted, virt, Sys(sys.pmm, vm))
  }

  ghost predicate RangeMapped(vm: VMap, v: nat, n: nat) { forall p :: v <= p < v + n ==> p in vm }

  /** `unmap_range` of pages below the window, whose physical pages the manager owns; `phys` is what
      `virt_to_phys` reads in the table. */
  ghost function UnmapRange(sys: Sys, virt: nat, len: nat, phys: nat): (MapResult, P.FreeOutcome, Sys) {
    var v, n := PageNo(virt), BytesToPages(len);
    if !RangeMapped(sys.vm, v, n) then (NotMapped, P.Invalid, sys)
    else
      var f := P.Free(sys.pmm, phys, len);
      if f.Freed? then (MapSuccess, f, Sys(f.s, Without(sys.vm, v, n))) else (InvalidOption, f, sys)
  }

  /** `free_mem`. */
  ghost function FreeMem(sys: Sys, addr: nat, len: nat, phys: nat): (MemResult, Sys) {
    if addr == 0 then (MemInvalid, sys)
    else
      match UnmapRange(sys, addr, len, phys)
      case (MapSuccess, _, sys') => (MemSuccess, sys')
      case (NotMapped, _, _) => (MemInvalid, sys)
      case _ => (Aborted, sys)
  }

  /** Every way `free_mem` can end, and exactly when; what is not freed stays as it was. */
  lemma FreeMemOutcomes(sys: Sys, addr: nat, len: nat, phys: nat)
    requires SysInv(sys)
    ensures var (r, sys') := FreeMem(sys, addr, len, phys);
            var all := forall p :: addr / 4096 <= p < addr / 4096 + BytesToPages(len) ==> p in sys.vm;
            && (r == MemInvalid <==> addr == 0 || !all)
            && (r == MemSuccess <==> addr != 0 && all && Freeable(sys.pmm.regions, phys, len))
            && (r == Aborted <==> addr != 0 && all && !Freeable(sys.pmm.regions, phys, len))
            && (r != MemSuccess ==> sys' == sys)
            && (r == MemSuccess ==>
                  forall p :: p in sys'.vm <==>
                    p in sys.vm && !(addr / 4096 <= p < addr / 4096 + BytesToPages(len)))
  {
    P.FreeOutcomes(sys.pmm, phys, len);
    assert RangeMapped(sys.vm, PageNo(addr), BytesToPages(len)) <==>
           forall p :: addr / 4096 <= p < addr / 4096 + BytesToPages(len) ==> p in sys.vm;
    hide P.Inv, P.Free, BytesToPages;
  }

  /** Some used region holds the address, and the end of the range, in 32 bits, is not behind it. */
  ghost predicate Freeable(regions: seq<P.Region>, phys: nat, len: nat) {
    exists i :: 0 <= i < |regions| && P.AddressIn(regions[i], phys) && regions[i].inUse
                && (phys + len) % 0x1_0000_0000 <= (regions[i].first + regions[i].pages) * 4096
  }

  ghost predicate SysInv(sys: Sys) { P.Inv(sys.pmm) && Below(sys.vm) }

  // ---------- What get_mem does ----------

  /** Mapping keeps what was mapped, and stays below the window. */
  lemma MapRangeKeeps(m: VMap, phys: nat, len: nat)
    requires Below(m)
    ensures var m' := MapRangeResult(m, phys, len).2; Below(m') && Extends(m, m')
  {
    var span := SpanOf(phys, len);
    var b := FindResult(m, span) / PAGE;
    if MapRangeResult(m, phys, len).0.MapSuccess? {
      FitsExcludes(m, b, span);
      FitsEndsBelowWindow(m, b, span);
      BytesToPagesBound(span);
    }
  }

  lemma ChunkMappingKeeps(s: P.State, m: VMap, len: nat, chunkBytes: nat)
    requires Below(m)
    ensures var m' := PhysMem.GetMapping(s, m, len, chunkBytes).1; Below(m') && Extends(m, m')
  {
    var i := P.FirstFit(s.regions, P.RoundUp(len));
    if i < |s.regions| {
      var s1 := s.(regions := P.Use(s.regions, i, true));
      var j := P.FirstFit(s1.regions, 0);
      if j < |s1.regions| {
        MapRangeKeeps(m, s1.regions[j].first * PAGE, chunkBytes);
      }
    }
  }

  /** A free region is long enough. */
  ghost predicate HasRoom(s: P.State, len: nat) {
    exists j :: 0 <= j < |s.regions| && !s.regions[j].inUse && s.regions[j].pages >= P.RoundUp(len)
  }

  /** Some start from the second page up leaves the whole range, and one page behind it, unmapped. */
  ghost predicate HasSpace(m: VMap, len: nat) { exists b :: 1 <= b && Fits(m, b, len) }

  lemma AlignedSpan(page: nat, len: nat)
    requires len < SPACE
    ensures SpanOf(AddressOf(page), len) == len && PageNo(AddressOf(page)) == page && AddressOf(page) % PAGE == 0
  {
  }

  lemma SpaceIs(m: VMap, len: nat)
    requires len < SPACE
    ensures HasSpace(m, len) <==> FindResult(m, len) != 0 && Fits(m, FindResult(m, len) / PAGE, len)
    ensures !HasSpace(m, len) && FindResult(m, len) != 0 <==> !HasSpace(m, len) && EndsUnchecked(m, len)
  {
    SearchIsFirstFit(m, len);
    if b :| 1 <= b && Fits(m, b, len) {
      assert FindResult(m, len) != 0;
      FitsEndsBelowWindow(m, b, len);
    } else {
      var b := FirstFit(m, 1, len);
      assert b == WINDOW;
    }
  }

  /** Every way `get_mem` can end, and exactly when.  It aborts when nothing fits but the search
      comes back with a range that ends at 4 GiB, and faults, filling a page it did not map, when the
      length is 0. */
  lemma GetMemOutcomes(sys: Sys, len: nat, perChunk: nat, chunkBytes: nat)
    requires SysInv(sys) && 1 <= perChunk && len < SPACE
    ensures var (r, addr, sys') := GetMem(sys, len, perChunk, chunkBytes);
            var vm := PhysMem.GetMapping(sys.pmm, sys.vm, len, chunkBytes).1;
            && SysInv(sys') && Extends(sys.vm, sys'.vm) && P.AllPages(sys'.pmm) == P.AllPages(sys.pmm)
            && (r == MemNoPhysMem <==> !HasRoom(sys.pmm, len))
            && (r == MemSuccess <==> HasRoom(sys.pmm, len) && HasSpace(vm, len) && len > 0)
            && (r == Faulted <==> HasRoom(sys.pmm, len) && HasSpace(vm, len) && len == 0)
            && (r == Aborted <==> HasRoom(sys.pmm, len) && !HasSpace(vm, len) && EndsUnchecked(vm, len))
            && (r == MemNoVirtMem <==> HasRoom(sys.pmm, len) && !HasSpace(vm, len) && !EndsUnchecked(vm, len))
  {
    hide *;
    var (mapped, vm) := PhysMem.GetMapping(sys.pmm, sys.vm, len, chunkBytes);
    SysInvIs(sys);
    ChunkMappingKeeps(sys.pmm, sys.vm, len, chunkBytes);
    GetStep(sys, len, perChunk, chunkBytes);
    if HasRoom(sys.pmm, len) {
      AllPagesKept(sys.pmm, len, perChunk, mapped);
      var (pmm, _, page) := P.Get(sys.pmm, len, perChunk, mapped);
      MapBlockOutcomes(Sys(pmm, vm), page, len);
      ExtendsTwice(sys.vm, vm, MapBlock(Sys(pmm, vm), page, len).2.vm);
      SysInvIs(MapBlock(Sys(pmm, vm), page, len).2);
    } else {
      ExtendsTwice(sys.vm, sys.vm, sys.vm);
    }
  }

  lemma SysInvIs(sys: Sys)
    ensures SysInv(sys) <==> P.Inv(sys.pmm) && Below(sys.vm)
  {
  }

  lemma ExtendsTwice(m: VMap, m': VMap, m'': VMap)
    ensures Extends(m, m) && (Extends(m, m') && Extends(m', m'') ==> Extends(m, m''))
  {
  }

  lemma GetStep(sys: Sys, len: nat, perChunk: nat, chunkBytes: nat)
    requires P.Inv(sys.pmm) && 1 <= perChunk
    ensures var (mapped, vm) := PhysMem.GetMapping(sys.pmm, sys.vm, len, chunkBytes);
            var (pmm, r, page) := P.Get(sys.pmm, len, perChunk, mapped);
            if HasRoom(sys.pmm, len) then GetMem(sys, len, perChunk, chunkBytes) == MapBlock(Sys(pmm, vm), page, len)
            else GetMem(sys, len, perChunk, chunkBytes) == (MemNoPhysMem, 0, sys)
  {
    P.GetReserves(sys.pmm, len, perChunk, PhysMem.GetMapping(sys.pmm, sys.vm, len, chunkBytes).0);
  }

  lemma MapBlockOutcomes(sys: Sys, page: nat, len: nat)
    requires Below(sys.vm) && len < SPACE
    ensures var (r, addr, sys') := MapBlock(sys, page, len);
            && Below(sys'.vm) && Extends(sys.vm, sys'.vm) && sys'.pmm == sys.pmm && r != MemNoPhysMem && r != MemInvalid
            && (r == MemSuccess <==> HasSpace(sys.vm, len) && len > 0)
            && (r == Faulted <==> HasSpace(sys.vm, len) && len == 0)
            && (r == Aborted <==> !HasSpace(sys.vm, len) && EndsUnchecked(sys.vm, len))
  {
    MapRangeKeeps(sys.vm, AddressOf(page), len);
    AlignedSpan(page, len);
    SpaceIs(sys.vm, len);
    FirstPageMapped(sys.vm, page, len);
    hide Below, Fits, FindResult, EndsUnchecked, HasSpace, Extends, AddressOf, SpanOf;
  }

  lemma AllPagesKept(s: P.State, len: nat, perChunk: nat, mapped: bool)
    requires P.Inv(s) && 1 <= perChunk && HasRoom(s, len)
    ensures P.Inv(P.Get(s, len, perChunk, mapped).0)
    ensures P.AllPages(P.Get(s, len, perChunk, mapped).0) == P.AllPages(s)
  {
    P.GetReserves(s, len, perChunk, mapped);
  }

  lemma FirstPageMapped(vm: VMap, page: nat, len: nat)
    requires Below(vm) && len < SPACE
    ensures var (r, virt, vm') := MapRangeResult(vm, AddressOf(page), len);
            r.MapSuccess? ==>
              && virt % PAGE == 0 && 1 <= PageNo(virt) && Fits(vm, PageNo(virt), len)
              && vm' == WithRange(vm, PageNo(virt), page, BytesToPages(len))
              && (PageNo(virt) in vm' <==> len > 0)
  {
    AlignedSpan(page, len);
    SearchIsFirstFit(vm, len);
    var virt := MapRangeResult(vm, AddressOf(page), len).1;
    if MapRangeResult(vm, AddressOf(page), len).0.MapSuccess? {
      assert !Mapped(vm, PageNo(virt));
    }
  }

  // ---------- Round trip ----------

  /** The address `virt_to_phys` reads for a mapped page. */
  function PhysOf(vm: VMap, virt: nat): nat
    requires PageNo(virt) in vm
  {
    AddressOf(vm[PageNo(virt)])
  }

  lemma SamePages(len: nat)
    requires 0 < len <= SPACE - PAGE
    ensures Ceil(len) == BytesToPages(len) == P.RoundUp(len) > 0
  {
  }

  /** The mapping of a block of whole pages. */
  ghost predicate MapsTo(vm: VMap, v: nat, f: nat, n: nat) {
    forall p :: v <= p < v + n ==> p in vm && vm[p] == f + (p - v)
  }

  lemma BlockMapped(sys: Sys, page: nat, len: nat)
    requires Below(sys.vm) && len < SPACE && MapBlock(sys, page, len).0 == MemSuccess
    requires page + P.RoundUp(len) <= PAGES
    ensures var (_, addr, sys') := MapBlock(sys, page, len);
            && sys'.pmm == sys.pmm && 0 < len <= SPACE - PAGE && addr % PAGE == 0 && addr > 0 && PageNo(addr) in sys'.vm
            && MapsTo(sys'.vm, PageNo(addr), page, BytesToPages(len))
            && RangeMapped(sys'.vm, PageNo(addr), BytesToPages(len))
            && (forall p :: PageNo(addr) <= p < PageNo(addr) + BytesToPages(len) ==> p !in sys.vm)
            && Without(sys'.vm, PageNo(addr), BytesToPages(len)) == sys.vm
            && PhysOf(sys'.vm, addr) == AddressOf(page)
  {
    FirstPageMapped(sys.vm, page, len);
    var addr := MapBlock(sys, page, len).1;
    FitsEndsBelowWindow(sys.vm, PageNo(addr), len);
    FitsExcludes(sys.vm, PageNo(addr), len);
    SamePages(len);
    hide Fits, MapRangeResult;
    RangeIs(sys.vm, PageNo(addr), page, BytesToPages(len));
  }

  lemma RangeIs(m: VMap, v: nat, f: nat, n: nat)
    requires f + n <= PAGES && n > 0 && forall p :: v <= p < v + n ==> p !in m
    ensures var m' := WithRange(m, v, f, n); MapsTo(m', v, f, n) && v in m' && m'[v] == f && Without(m', v, n) == m
  {
  }

  /** Freeing what was just allocated restores the mapping and the regions exactly, apart from the
      one region that may have become a chunk of headers, and the mapping of that chunk. */
  lemma FreeUndoesGetMem(sys: Sys, len: nat, perChunk: nat, chunkBytes: nat)
    requires SysInv(sys) && 1 <= perChunk && len < SPACE
    requires GetMem(sys, len, perChunk, chunkBytes).0 == MemSuccess
    ensures var (_, addr, sys') := GetMem(sys, len, perChunk, chunkBytes);
            var (mapped, vm) := PhysMem.GetMapping(sys.pmm, sys.vm, len, chunkBytes);
            var i := P.FirstFit(sys.pmm.regions, P.RoundUp(len));
            && PageNo(addr) in sys'.vm && i < |sys.pmm.regions|
            && FreeMem(sys', addr, len, PhysOf(sys'.vm, addr))
               == (MemSuccess, Sys(P.OnlyChunkTaken(sys.pmm, i, P.RoundUp(len), perChunk, mapped), vm))
            && (!P.NeedsChunk(sys.pmm) ==> FreeMem(sys', addr, len, PhysOf(sys'.vm, addr)).1 == sys)
  {
    hide *;
    var (mapped, vm) := PhysMem.GetMapping(sys.pmm, sys.vm, len, chunkBytes);
    var (pmm, _, page) := P.Get(sys.pmm, len, perChunk, mapped);
    BlockReserved(sys, len, perChunk, chunkBytes);
    if !P.NeedsChunk(sys.pmm) {
      NoChunkNeeded(sys, len, perChunk, chunkBytes);
    }
    GetStep(sys, len, perChunk, chunkBytes);
    BlockMapped(Sys(pmm, vm), page, len);
    SamePages(len);
    P.FreeUndoesGet(sys.pmm, len, perChunk, mapped);
    var (_, addr, sys') := GetMem(sys, len, perChunk, chunkBytes);
    FreeMapped(sys', addr, len, AddressOf(page));
  }

  lemma BlockReserved(sys: Sys, len: nat, perChunk: nat, chunkBytes: nat)
    requires SysInv(sys) && 1 <= perChunk && len < SPACE
    requires GetMem(sys, len, perChunk, chunkBytes).0 == MemSuccess
    ensures var (mapped, vm) := PhysMem.GetMapping(sys.pmm, sys.vm, len, chunkBytes);
            var (_, r, page) := P.Get(sys.pmm, len, perChunk, mapped);
            && P.Inv(sys.pmm) && HasRoom(sys.pmm, len) &&
              P.FirstFit(sys.pmm.regions, P.RoundUp(len)) < |sys.pmm.regions|
            && r == P.PmmSuccess && page + P.RoundUp(len) <= PAGES && Below(vm) && AddressOf(page) == page * PAGE
  {
    var mapped := PhysMem.GetMapping(sys.pmm, sys.vm, len, chunkBytes).0;
    P.GetReserves(sys.pmm, len, perChunk, mapped);
    ChunkMappingKeeps(sys.pmm, sys.vm, len, chunkBytes);
    var i := P.FirstFit(sys.pmm.regions, P.RoundUp(len));
    assert i < |sys.pmm.regions| ==> sys.pmm.regions[i].End() < PAGES;
  }

  lemma FreeMapped(sys: Sys, addr: nat, len: nat, phys: nat)
    requires addr > 0 && RangeMapped(sys.vm, PageNo(addr), BytesToPages(len)) && P.Free(sys.pmm, phys, len).Freed?
    ensures FreeMem(sys, addr, len, phys)
            == (MemSuccess, Sys(P.Free(sys.pmm, phys, len).s, Without(sys.vm, PageNo(addr), BytesToPages(len))))
  {
  }

  lemma NoChunkNeeded(sys: Sys, len: nat, perChunk: nat, chunkBytes: nat)
    requires P.FirstFit(sys.pmm.regions, P.RoundUp(len)) < |sys.pmm.regions| && !P.NeedsChunk(sys.pmm)
    ensures var (mapped, vm) := PhysMem.GetMapping(sys.pmm, sys.vm, len, chunkBytes);
            var i := P.FirstFit(sys.pmm.regions, P.RoundUp(len));
            vm == sys.vm && P.OnlyChunkTaken(sys.pmm, i, P.RoundUp(len), perChunk, mapped) == sys.pmm
  {
  }

  // ---------- Live allocations ----------

  /** Memory that `get_mem` returned: its address and length, and its first physical page. */
  datatype Alloc = Alloc(virt: nat, len: nat, page: nat)

  ghost function Pages(first: nat, len: nat): set<nat> {
    set p: nat | first <= p < first + Ceil(len) && InBlock(first, len, p)
  }

  predicate InBlock(first: nat, len: nat, p: nat) { first <= p < first + Ceil(len) }

  ghost function VirtPages(a: Alloc): set<nat> { Pages(PageNo(a.virt), a.len) }

  ghost function PhysPages(a: Alloc): set<nat> { Pages(a.page, a.len) }

  predicate Reserves(r: P.Region, page: nat, n: nat) { r.inUse && r.first == page && r.pages >= n }

  /** Some used region starts at `page` and has at least `n` pages. */
  ghost predicate UsedAt(regions: seq<P.Region>, page: nat, n: nat) {
    exists j :: 0 <= j < |regions| && Reserves(regions[j], page, n)
  }

  /** The block of the allocation is reserved, and its virtual pages map to it in order. */
  ghost predicate Owns(sys: Sys, a: Alloc) {
    && 0 < a.len <= SPACE - PAGE && a.virt > 0 && a.virt % PAGE == 0
    && UsedAt(sys.pmm.regions, a.page, Ceil(a.len)) && MapsTo(sys.vm, PageNo(a.virt), a.page, Ceil(a.len))
  }

  ghost predicate Apart(a: Alloc, b: Alloc) { a.page != b.page && VirtPages(a) !! VirtPages(b) }

  ghost predicate MemInv(sys: Sys, live: seq<Alloc>) {
    && SysInv(sys)
    && (forall i :: 0 <= i < |live| ==> Owns(sys, live[i]))
    && (forall i, j :: 0 <= i < j < |live| ==> Apart(live[i], live[j]))
  }

  /** The two allocations share no page, and each of their bytes is the same byte of its block. */
  ghost predicate Isolated(sys: Sys, a: Alloc, b: Alloc) {
    && VirtPages(a) !! VirtPages(b) && PhysPages(a) !! PhysPages(b)
    && Translates(sys, a) && Translates(sys, b)
  }

  ghost predicate Translates(sys: Sys, a: Alloc) {
    BytesMap(sys.vm, a.virt, AddressOf(a.page), a.len)
  }

  /** Live allocations share no virtual page and no physical page, their physical pages are reserved,
      and each of their bytes translates to the same byte of the block. */
  lemma LiveMemoryIsIsolated(sys: Sys, live: seq<Alloc>, i: nat, j: nat)
    requires MemInv(sys, live) && i < j < |live|
    ensures Isolated(sys, live[i], live[j])
    ensures PhysPages(live[i]) <= P.PagesOf(sys.pmm.regions, true)
  {
    var a, b := live[i], live[j];
    assert Apart(a, b) && Owns(sys, a) && Owns(sys, b);
    var k :| 0 <= k < |sys.pmm.regions| && Reserves(sys.pmm.regions[k], a.page, Ceil(a.len));
    var l :| 0 <= l < |sys.pmm.regions| && Reserves(sys.pmm.regions[l], b.page, Ceil(b.len));
    P.RegionPagesHeld(sys.pmm.regions, k);
    forall p | p in PhysPages(a) ensures p !in PhysPages(b) && p in P.RegionPages(sys.pmm.regions[k]) {
      assert sys.pmm.regions[k].Has(p);
      P.OnlyHolder(sys.pmm.regions, k, p);
    }
    OwnedTranslates(sys, a);
    OwnedTranslates(sys, b);
  }

  lemma OwnedTranslates(sys: Sys, a: Alloc)
    requires Owns(sys, a)
    ensures Translates(sys, a)
  {
    forall x | 0 <= x < a.len ensures ByteMaps(sys.vm, a.virt, AddressOf(a.page), x) {
      ByteInBlock(a.virt, a.len, a.page, x);
    }
  }

  lemma ByteInBlock(virt: nat, len: nat, page: nat, x: nat)
    requires virt % PAGE == 0 && x < len
    ensures var p := (virt + x) / PAGE;
            PageNo(virt) <= p < PageNo(virt) + Ceil(len) &&
              (page + (p - PageNo(virt))) * PAGE + (virt + x) % PAGE == AddressOf(page) + x
  {
  }

  // ---------- What the operations do to other allocations ----------

  /** A reservation leaves every used region where it is, and adds one. */
  lemma ReserveKeepsUsed(s: P.State, i: nat, pages: nat, perChunk: nat, mapped: bool, page: nat, n: nat)
    requires i < |s.regions| && !s.regions[i].inUse && pages <= s.regions[i].pages && UsedAt(s.regions, page, n)
    ensures UsedAt(P.Reserve(s, i, pages, perChunk, mapped).regions, page, n)
  {
    var j :| 0 <= j < |s.regions| && Reserves(s.regions[j], page, n);
    var s1 := s.(regions := P.Use(s.regions, i, true));
    P.NewHeaderKeepsRegion(s1, i, perChunk, mapped);
    P.NewHeaderKeepsRegion(s1, j, perChunk, mapped);
    var t := P.Reserve(s, i, pages, perChunk, mapped).regions;
    assert Reserves(t[if |t| == |s.regions| || j < i then j else j + 1], page, n);
  }

  lemma ReserveAddsUsed(s: P.State, i: nat, pages: nat, perChunk: nat, mapped: bool)
    requires P.Inv(s) && 1 <= perChunk && i < |s.regions| && !s.regions[i].inUse && pages <= s.regions[i].pages
    ensures UsedAt(P.Reserve(s, i, pages, perChunk, mapped).regions, s.regions[i].first, pages)
  {
    P.ReserveShape(s, i, pages, perChunk, mapped);
    assert Reserves(P.Reserve(s, i, pages, perChunk, mapped).regions[i], s.regions[i].first, pages);
  }

  lemma UseKeepsUsed(regions: seq<P.Region>, i: nat, page: nat, n: nat)
    requires i < |regions| && UsedAt(regions, page, n) && regions[i].first != page
    ensures UsedAt(P.Use(regions, i, false), page, n)
  {
    var j :| 0 <= j < |regions| && Reserves(regions[j], page, n);
    assert P.Use(regions, i, false)[j] == regions[j];
  }

  lemma MergeKeepsUsed(regions: seq<P.Region>, i: nat, page: nat, n: nat)
    requires i + 1 < |regions| && UsedAt(regions, page, n) && !regions[i].inUse && !regions[i + 1].inUse
    ensures UsedAt(P.MergeAt(regions, i), page, n)
  {
    var j :| 0 <= j < |regions| && Reserves(regions[j], page, n);
    var t := P.MergeAt(regions, i);
    if j < i {
      assert t[j] == regions[j];
    } else {
      assert t[j - 1] == regions[j];
    }
  }

  /** Freeing a region leaves the other used ones where they are. */
  lemma CoalesceKeepsUsed(regions: seq<P.Region>, i: nat, page: nat, n: nat)
    requires i < |regions| && UsedAt(regions, page, n) && regions[i].first != page
    ensures UsedAt(P.Coalesce(P.Use(regions, i, false), i), page, n)
  {
    var c := P.Use(regions, i, false);
    UseKeepsUsed(regions, i, page, n);
    assert i < |c| && !c[i].inUse;
    hide P.Use, UsedAt;
    if i + 1 < |c| && !c[i + 1].inUse && P.Joins(c, i) {
      MergeKeepsUsed(c, i, page, n);
      c := P.MergeAt(c, i);
    }
    assert i < |c| && !c[i].inUse;
    hide P.MergeAt;
    if i > 0 && !c[i - 1].inUse && P.Joins(c, i - 1) {
      MergeKeepsUsed(c, i - 1, page, n);
    }
  }

  lemma ExtendsMapsTo(m: VMap, m': VMap, v: nat, f: nat, n: nat)
    requires Extends(m, m') && MapsTo(m, v, f, n)
    ensures MapsTo(m', v, f, n)
  {
  }

  /** A free block does not start where a used one does. */
  lemma FreeStartsElsewhere(regions: seq<P.Region>, i: nat, page: nat, n: nat)
    requires P.Sound(regions) && i < |regions| && !regions[i].inUse && UsedAt(regions, page, n) && n > 0
    ensures regions[i].first != page
  {
    var j :| 0 <= j < |regions| && Reserves(regions[j], page, n);
    if regions[i].first == page {
      P.OneHolder(regions, i, j, page);
    }
  }

  /** What a successful `get_mem` returns is owned, and it leaves every other allocation alone. */
  lemma GetMemOwns(sys: Sys, len: nat, perChunk: nat, chunkBytes: nat)
    requires SysInv(sys) && 1 <= perChunk && len < SPACE
    requires GetMem(sys, len, perChunk, chunkBytes).0 == MemSuccess
    ensures var (_, addr, sys') := GetMem(sys, len, perChunk, chunkBytes);
            && PageNo(addr) in sys'.vm
            && Owns(sys', Alloc(addr, len, sys'.vm[PageNo(addr)]))
            && (forall a :: Owns(sys, a) ==> Owns(sys', a) && Apart(a, Alloc(addr, len, sys'.vm[PageNo(addr)])))
  {
    hide *;
    var (mapped, vm) := PhysMem.GetMapping(sys.pmm, sys.vm, len, chunkBytes);
    var (pmm, _, page) := P.Get(sys.pmm, len, perChunk, mapped);
    BlockReserved(sys, len, perChunk, chunkBytes);
    SysInvIs(sys);
    ChunkMappingKeeps(sys.pmm, sys.vm, len, chunkBytes);
    GetStep(sys, len, perChunk, chunkBytes);
    GetMemOutcomes(sys, len, perChunk, chunkBytes);
    BlockMapped(Sys(pmm, vm), page, len);
    SamePages(len);
    BlockUsed(sys.pmm, len, perChunk, mapped);
    var (_, addr, sys') := GetMem(sys, len, perChunk, chunkBytes);
    OwnsIs(sys', Alloc(addr, len, page));
    MapsToFirst(sys'.vm, PageNo(addr), page, Ceil(len));
    forall a | Owns(sys, a) ensures Owns(sys', a) && Apart(a, Alloc(addr, len, page)) {
      OwnsIs(sys, a);
      OwnsIs(sys', a);
      SamePages(a.len);
      OthersUsed(sys.pmm, len, perChunk, mapped, a.page, Ceil(a.len));
      ExtendsMapsTo(sys.vm, sys'.vm, PageNo(a.virt), a.page, Ceil(a.len));
      ExtendsMapsTo(sys.vm, vm, PageNo(a.virt), a.page, Ceil(a.len));
      NewPagesApart(vm, a, Alloc(addr, len, page));
    }
  }

  /** The block reserved is used. */
  lemma BlockUsed(s: P.State, len: nat, perChunk: nat, mapped: bool)
    requires P.Inv(s) && 1 <= perChunk && HasRoom(s, len)
    ensures var (s', _, page) := P.Get(s, len, perChunk, mapped); UsedAt(s'.regions, page, P.RoundUp(len))
  {
    BlockGot(s, len, perChunk, mapped);
    ReserveAddsUsed(s, P.FirstFit(s.regions, P.RoundUp(len)), P.RoundUp(len), perChunk, mapped);
  }

  /** The other used regions stay, and start elsewhere. */
  lemma OthersUsed(s: P.State, len: nat, perChunk: nat, mapped: bool, page: nat, n: nat)
    requires P.Inv(s) && 1 <= perChunk && HasRoom(s, len) && UsedAt(s.regions, page, n) && n > 0
    ensures var (s', _, first) := P.Get(s, len, perChunk, mapped); UsedAt(s'.regions, page, n) && page != first
  {
    var i := P.FirstFit(s.regions, P.RoundUp(len));
    BlockGot(s, len, perChunk, mapped);
    ReserveKeepsUsed(s, i, P.RoundUp(len), perChunk, mapped, page, n);
    FreeStartsElsewhere(s.regions, i, page, n);
  }

  lemma OwnsIs(sys: Sys, a: Alloc)
    ensures Owns(sys, a) <==>
            && 0 < a.len <= SPACE - PAGE && a.virt > 0 && a.virt % PAGE == 0
            && UsedAt(sys.pmm.regions, a.page, Ceil(a.len)) && MapsTo(sys.vm, PageNo(a.virt), a.page, Ceil(a.len))
  {
  }

  lemma MapsToFirst(m: VMap, v: nat, f: nat, n: nat)
    requires MapsTo(m, v, f, n) && n > 0
    ensures v in m && m[v] == f
  {
  }

  lemma NewPagesApart(m: VMap, a: Alloc, b: Alloc)
    requires MapsTo(m, PageNo(a.virt), a.page, Ceil(a.len)) && a.page != b.page
    requires forall p :: PageNo(b.virt) <= p < PageNo(b.virt) + Ceil(b.len) ==> p !in m
    ensures Apart(a, b)
  {
    forall p | p in VirtPages(a) ensures p !in VirtPages(b) {
      assert InBlock(PageNo(a.virt), a.len, p);
      assert p in m;
    }
  }

  /** Freeing an allocation with its own length always succeeds, and leaves every other one alone. */
  lemma FreeMemReleases(sys: Sys, a: Alloc)
    requires SysInv(sys) && Owns(sys, a)
    ensures PageNo(a.virt) in sys.vm
    ensures var (r, sys') := FreeMem(sys, a.virt, a.len, PhysOf(sys.vm, a.virt));
            && r == MemSuccess && SysInv(sys') && P.AllPages(sys'.pmm) == P.AllPages(sys.pmm)
            && (forall b :: Owns(sys, b) && (Apart(a, b) || Apart(b, a)) ==> Owns(sys', b))
            && PhysPages(a) <= P.PagesOf(sys'.pmm.regions, false)
            && forall p :: p in VirtPages(a) ==> p !in sys'.vm
  {
    SamePages(a.len);
    MapsToFirst(sys.vm, PageNo(a.virt), a.page, Ceil(a.len));
    var j: nat :| j < |sys.pmm.regions| && Reserves(sys.pmm.regions[j], a.page, Ceil(a.len));
    FreeBlockOf(sys.pmm, a, j);
    BlockMappedBy(sys, a);
    hide *;
    FreeMapped(sys, a.virt, a.len, AddressOf(a.page));
    var sys' := FreeMem(sys, a.virt, a.len, PhysOf(sys.vm, a.virt)).1;
    WithoutBelow(sys.vm, PageNo(a.virt), BytesToPages(a.len));
    SysInvIs(sys');
    NoneLeft(sys.vm, a);
    forall b | Owns(sys, b) && (Apart(a, b) || Apart(b, a)) ensures Owns(sys', b) {
      OwnsIs(sys, b);
      ApartIs(a, b);
      ApartIs(b, a);
      CoalesceKeepsUsed(sys.pmm.regions, j, b.page, Ceil(b.len));
      WithoutMapsTo(sys.vm, a, b);
      OwnsIs(sys', b);
    }
  }

  lemma ApartIs(a: Alloc, b: Alloc)
    ensures Apart(a, b) <==> a.page != b.page && VirtPages(a) !! VirtPages(b)
  {
  }

  /** Freeing the region of an allocation, by the address of its first page. */
  lemma FreeBlockOf(s: P.State, a: Alloc, j: nat)
    requires P.Inv(s) && 0 < a.len <= SPACE - PAGE
    requires j < |s.regions| && Reserves(s.regions[j], a.page, Ceil(a.len))
    ensures s.regions[j].first == a.page
    ensures var s' := s.(regions := P.Coalesce(P.Use(s.regions, j, false), j));
            && P.Free(s, AddressOf(a.page), a.len) == P.Freed(s')
            && P.Inv(s') && P.AllPages(s') == P.AllPages(s) && PhysPages(a) <= P.PagesOf(s'.regions, false)
  {
    SamePages(a.len);
    P.FreeBlock(s, j, a.len);
    P.HolderIs(s.regions, j);
    P.FreeReturns(s, AddressOf(a.page), a.len);
    BlockInRegion(a, s.regions[j]);
  }

  lemma BlockMappedBy(sys: Sys, a: Alloc)
    requires SysInv(sys) && Owns(sys, a)
    ensures RangeMapped(sys.vm, PageNo(a.virt), BytesToPages(a.len)) && a.virt > 0
    ensures PageNo(a.virt) in sys.vm && PhysOf(sys.vm, a.virt) == AddressOf(a.page) && P.Inv(sys.pmm) && Below(sys.vm)
  {
    SamePages(a.len);
  }

  lemma WithoutBelow(m: VMap, v: nat, n: nat)
    requires Below(m)
    ensures Below(Without(m, v, n))
  {
  }

  lemma NoneLeft(m: VMap, a: Alloc)
    requires 0 < a.len <= SPACE - PAGE
    ensures forall p :: p in VirtPages(a) ==> p !in Without(m, PageNo(a.virt), BytesToPages(a.len))
  {
    SamePages(a.len);
    assert forall p :: p in VirtPages(a) ==> InBlock(PageNo(a.virt), a.len, p);
  }

  lemma BlockInRegion(a: Alloc, r: P.Region)
    requires Reserves(r, a.page, Ceil(a.len))
    ensures PhysPages(a) <= P.RegionPages(r)
  {
    forall p | p in PhysPages(a) ensures p in P.RegionPages(r) {
      assert r.Has(p);
    }
  }

  lemma WithoutMapsTo(m: VMap, a: Alloc, b: Alloc)
    requires VirtPages(a) !! VirtPages(b) && MapsTo(m, PageNo(b.virt), b.page, Ceil(b.len)) && 0 < a.len <= SPACE - PAGE
    ensures MapsTo(Without(m, PageNo(a.virt), BytesToPages(a.len)), PageNo(b.virt), b.page, Ceil(b.len))
  {
    SamePages(a.len);
    forall p | InBlock(PageNo(b.virt), b.len, p) ensures !InBlock(PageNo(a.virt), a.len, p) {
      assert p in VirtPages(b);
    }
    var m' := Without(m, PageNo(a.virt), BytesToPages(a.len));
    forall p | PageNo(b.virt) <= p < PageNo(b.virt) + Ceil(b.len) ensures p in m' && m'[p] == m[p] {
      assert InBlock(PageNo(b.virt), b.len, p);
    }
  }

  // ---------- Whole runs ----------

  datatype Op = Allocate(len: nat) | Release(addr: nat, len: nat)

  /** A run stops where the kernel does.  Freeing something that is mapped, but is not what `get_mem`
      returned with the length it was asked for, or that reaches into the window, is a misuse. */
  datatype Run = Running(sys: Sys, live: seq<Alloc>) | Stopped | Misused

  ghost predicate IsLive(live: seq<Alloc>, addr: nat, len: nat, i: nat) {
    i < |live| && live[i].virt == addr && live[i].len == len
  }

  ghost function Exec(sys: Sys, live: seq<Alloc>, op: Op, perChunk: nat, chunkBytes: nat): (r: Run)
    requires MemInv(sys, live) && 1 <= perChunk
  {
    match op
    case Allocate(len) =>
      if len >= SPACE then Misused
      else
        var (r, addr, sys') := GetMem(sys, len, perChunk, chunkBytes);
        if r == MemSuccess && PageNo(addr) in sys'.vm then
          Running(sys', live + [Alloc(addr, len, sys'.vm[PageNo(addr)])])
        else if r.Stops() then Stopped
        else Running(sys', live)
    case Release(addr, len) =>
      if addr != 0 && PageNo(addr) + BytesToPages(len) > WINDOW then Misused
      else if addr == 0 || !RangeMapped(sys.vm, PageNo(addr), BytesToPages(len)) then
        Running(FreeMem(sys, addr, len, 0).1, live)
      else if i: nat :| IsLive(live, addr, len, i) && PageNo(addr) in sys.vm then
        var (r, sys') := FreeMem(sys, addr, len, PhysOf(sys.vm, addr));
        if r.Stops() then Stopped else Running(sys', live[..i] + live[i + 1..])
      else Misused
  }

  /** Every step keeps the live allocations isolated and the pages under management; and releasing
      never stops the kernel. */
  lemma ExecKeeps(sys: Sys, live: seq<Alloc>, op: Op, perChunk: nat, chunkBytes: nat)
    requires MemInv(sys, live) && 1 <= perChunk
    ensures var r := Exec(sys, live, op, perChunk, chunkBytes);
            && (r.Running? ==> MemInv(r.sys, r.live) && P.AllPages(r.sys.pmm) == P.AllPages(sys.pmm))
            && (op.Release? ==> !r.Stopped?)
  {
    match op
    case Allocate(len) =>
      if len < SPACE {
        GetMemOutcomes(sys, len, perChunk, chunkBytes);
        var (r, addr, sys') := GetMem(sys, len, perChunk, chunkBytes);
        if r == MemSuccess {
          GetMemOwns(sys, len, perChunk, chunkBytes);
          hide *;
          InvAdds(sys, sys', live, Alloc(addr, len, sys'.vm[PageNo(addr)]));
        } else {
          hide P.AllPages;
          GetMemFails(sys, len, perChunk, chunkBytes);
          InvStays(sys, sys', live);
        }
      }
    case Release(addr, len) =>
      hide FreeMem;
      if addr != 0 && PageNo(addr) + BytesToPages(len) > WINDOW {
      } else if addr == 0 || !RangeMapped(sys.vm, PageNo(addr), BytesToPages(len)) {
        FreeRefused(sys, addr, len);
      } else if i: nat :| IsLive(live, addr, len, i) && PageNo(addr) in sys.vm {
        forall k: nat | IsLive(live, addr, len, k) && PageNo(addr) in sys.vm ensures
            var (r, sys') := FreeMem(sys, addr, len, PhysOf(sys.vm, addr));
            !r.Stops() && MemInv(sys', live[..k] + live[k + 1..]) && P.AllPages(sys'.pmm) == P.AllPages(sys.pmm)
        {
          FreeMemReleases(sys, live[k]);
          InvRemoves(sys, FreeMem(sys, addr, len, PhysOf(sys.vm, addr)).1, live, k);
        }
      }
  }

  /** An allocation that succeeds is live from then on, with what `get_mem` made of the memory. */
  lemma AllocateAdds(sys: Sys, live: seq<Alloc>, len: nat, perChunk: nat, chunkBytes: nat)
    requires MemInv(sys, live) && 1 <= perChunk && len < SPACE
    ensures var r := Exec(sys, live, Allocate(len), perChunk, chunkBytes);
            var (g, addr, sys') := GetMem(sys, len, perChunk, chunkBytes);
            && (r.Stopped? <==> g.Stops())
            && (g == MemSuccess ==>
                  && r.Running? && r.sys == sys' && |r.live| == |live| + 1 && r.live[..|live|] == live
                  && r.live[|live|].virt == addr && r.live[|live|].len == len)
            && (!g.Stops() && g != MemSuccess ==> r == Running(sys', live))
  {
    if GetMem(sys, len, perChunk, chunkBytes).0 == MemSuccess {
      GetMemOwns(sys, len, perChunk, chunkBytes);
    }
    hide GetMem, MemInv, Owns, SysInv;
  }

  /** A live allocation can always be released; then it is live no more, and its pages are free. */
  lemma ReleaseRemoves(sys: Sys, live: seq<Alloc>, addr: nat, len: nat, perChunk: nat, chunkBytes: nat)
    requires MemInv(sys, live) && 1 <= perChunk && exists i: nat :: IsLive(live, addr, len, i)
    ensures var r := Exec(sys, live, Release(addr, len), perChunk, chunkBytes);
            r.Running? && exists i: nat :: IsLive(live, addr, len, i) && IsReleased(r.sys, r.live, live, i)
  {
    var k: nat :| IsLive(live, addr, len, k);
    LiveIsMapped(sys, live, k);
    forall i: nat | IsLive(live, addr, len, i) && PageNo(addr) in sys.vm ensures
        var (r, sys') := FreeMem(sys, addr, len, PhysOf(sys.vm, addr));
        !r.Stops() && IsReleased(sys', live[..i] + live[i + 1..], live, i)
    {
      FreeMemReleases(sys, live[i]);
    }
    hide FreeMem, MemInv, IsReleased, RangeMapped;
  }

  /** The allocation at `i` is live no more, and its pages are unmapped and free. */
  ghost predicate IsReleased(sys: Sys, after: seq<Alloc>, live: seq<Alloc>, i: nat) {
    && i < |live| && after == live[..i] + live[i + 1..]
    && (forall p :: p in VirtPages(live[i]) ==> p !in sys.vm)
    && PhysPages(live[i]) <= P.PagesOf(sys.pmm.regions, false)
  }

  lemma LiveIsMapped(sys: Sys, live: seq<Alloc>, i: nat)
    requires MemInv(sys, live) && i < |live|
    ensures var a := live[i];
            && a.virt != 0 && PageNo(a.virt) in sys.vm && PageNo(a.virt) + BytesToPages(a.len) <= WINDOW
            && RangeMapped(sys.vm, PageNo(a.virt), BytesToPages(a.len))
  {
    var a := live[i];
    assert Owns(sys, a);
    SamePages(a.len);
    assert PageNo(a.virt) + BytesToPages(a.len) - 1 in sys.vm;
  }

  lemma FreeRefused(sys: Sys, addr: nat, len: nat)
    requires addr == 0 || !RangeMapped(sys.vm, PageNo(addr), BytesToPages(len))
    ensures forall phys: nat :: FreeMem(sys, addr, len, phys) == (MemInvalid, sys)
  {
  }

  lemma InvAdds(sys: Sys, sys': Sys, live: seq<Alloc>, a: Alloc)
    requires MemInv(sys, live) && SysInv(sys') && Owns(sys', a)
    requires forall b :: Owns(sys, b) ==> Owns(sys', b) && Apart(b, a)
    ensures MemInv(sys', live + [a])
  {
    hide SysInv, Owns, Apart;
  }

  lemma InvStays(sys: Sys, sys': Sys, live: seq<Alloc>)
    requires MemInv(sys, live) && SysInv(sys') && forall b :: Owns(sys, b) ==> Owns(sys', b)
    ensures MemInv(sys', live)
  {
    hide SysInv, Owns, Apart;
  }

  lemma InvRemoves(sys: Sys, sys': Sys, live: seq<Alloc>, i: nat)
    requires MemInv(sys, live) && i < |live| && SysInv(sys')
    requires forall b :: Owns(sys, b) && (Apart(live[i], b) || Apart(b, live[i])) ==> Owns(sys', b)
    ensures MemInv(sys', live[..i] + live[i + 1..])
  {
    hide SysInv, Owns, Apart;
    var rest := live[..i] + live[i + 1..];
    assert forall k :: 0 <= k < |rest| ==> rest[k] == live[if k < i then k else k + 1];
  }

  /** When it fails, `get_mem` changes nothing if there is no physical memory; but if there is no
      virtual memory the physical block stays reserved, and nobody has its address. */
  lemma GetMemFails(sys: Sys, len: nat, perChunk: nat, chunkBytes: nat)
    requires SysInv(sys) && 1 <= perChunk && len < SPACE
    requires GetMem(sys, len, perChunk, chunkBytes).0 != MemSuccess
    ensures var (r, _, sys') := GetMem(sys, len, perChunk, chunkBytes);
            && (sys'.pmm == sys.pmm <==> r == MemNoPhysMem)
            && (r == MemNoPhysMem ==> sys' == sys)
            && (r != MemNoPhysMem && 0 < len <= SPACE - PAGE ==>
                  P.PagesOf(sys'.pmm.regions, false) < P.PagesOf(sys.pmm.regions, false))
            && (forall a :: Owns(sys, a) ==> Owns(sys', a))
  {
    GetMemOutcomes(sys, len, perChunk, chunkBytes);
    GetStep(sys, len, perChunk, chunkBytes);
    if HasRoom(sys.pmm, len) {
      BlockStaysReserved(sys, len, perChunk, chunkBytes);
    }
  }

  /** The address space with every page below the window mapped. */
  function FullSpace(): VMap { map p: nat | p < WINDOW && Mappable(p) :: p }

  predicate Mappable(p: nat) { p < WINDOW }

  /** The instance: two free pages and no virtual memory; a page is asked for, and lost. */
  lemma BlockLost(chunkBytes: nat)
    ensures var sys := Sys(P.State([P.Region(1, 2, false)], 10), FullSpace());
            SysInv(sys) && GetMem(sys, PAGE, 5, chunkBytes)
            == (MemNoVirtMem, 0, sys.(pmm := P.State([P.Region(1, 1, true), P.Region(2, 1, false)], 10)))
  {
    var s, m := P.State([P.Region(1, 2, false)], 10), FullSpace();
    BlockLostInv();
    OneReserved(m, chunkBytes);
    NoSpaceInFull();
    hide *;
    GetStep(Sys(s, m), PAGE, 5, chunkBytes);
    BlockNotMapped(Sys(P.State([P.Region(1, 1, true), P.Region(2, 1, false)], 10), m), 1, PAGE);
  }

  lemma BlockLostInv()
    ensures SysInv(Sys(P.State([P.Region(1, 2, false)], 10), FullSpace()))
    ensures P.Inv(P.State([P.Region(1, 2, false)], 10))
  {
  }

  lemma OneReserved(m: VMap, chunkBytes: nat)
    ensures var s := P.State([P.Region(1, 2, false)], 10);
            var (mapped, vm) := PhysMem.GetMapping(s, m, PAGE, chunkBytes);
            && vm == m && HasRoom(s, PAGE)
            && P.Get(s, PAGE, 5, mapped) == (P.State([P.Region(1, 1, true), P.Region(2, 1, false)], 10), P.PmmSuccess, 1)
  {
    var s := P.State([P.Region(1, 2, false)], 10);
    assert P.RoundUp(PAGE) == 1 && P.FirstFit(s.regions, 1) == 0;
    assert P.Use(s.regions, 0, true) == [P.Region(1, 2, true)];
    assert P.Cut([P.Region(1, 2, true)], 0, 1) == [P.Region(1, 1, true), P.Region(2, 1, false)];
    assert !s.regions[0].inUse && s.regions[0].pages >= P.RoundUp(PAGE);
  }

  lemma BlockNotMapped(sys: Sys, page: nat, len: nat)
    requires MapRangeResult(sys.vm, AddressOf(page), len) == (NoVirtMem, 0, sys.vm)
    ensures MapBlock(sys, page, len) == (MemNoVirtMem, 0, sys)
  {
  }

  lemma NoSpaceInFull()
    ensures MapRangeResult(FullSpace(), AddressOf(1), PAGE) == (NoVirtMem, 0, FullSpace())
  {
    var m := FullSpace();
    forall b | b >= 1 ensures !Fits(m, b, PAGE) {
      assert Mapped(m, b);
    }
    hide FullSpace, Fits, Mapped;
    FirstFitIs(m, 1, PAGE);
    AlignedSpan(1, PAGE);
    hide FirstFit;
    assert FindResult(m, PAGE) == 0;
  }

  lemma BlockStaysReserved(sys: Sys, len: nat, perChunk: nat, chunkBytes: nat)
    requires SysInv(sys) && 1 <= perChunk && len < SPACE && HasRoom(sys.pmm, len)
    ensures var sys' := GetMem(sys, len, perChunk, chunkBytes).2;
            && sys'.pmm != sys.pmm
            && (0 < len <= SPACE - PAGE ==> P.PagesOf(sys'.pmm.regions, false) < P.PagesOf(sys.pmm.regions, false))
            && (forall a :: Owns(sys, a) ==> Owns(sys', a))
  {
    hide *;
    var (mapped, vm) := PhysMem.GetMapping(sys.pmm, sys.vm, len, chunkBytes);
    var (pmm, _, page) := P.Get(sys.pmm, len, perChunk, mapped);
    var i := P.FirstFit(sys.pmm.regions, P.RoundUp(len));
    SysInvIs(sys);
    BlockGot(sys.pmm, len, perChunk, mapped);
    GetStep(sys, len, perChunk, chunkBytes);
    GetMemOutcomes(sys, len, perChunk, chunkBytes);
    ChunkMappingKeeps(sys.pmm, sys.vm, len, chunkBytes);
    MapBlockOutcomes(Sys(pmm, vm), page, len);
    var sys' := GetMem(sys, len, perChunk, chunkBytes).2;
    if 0 < len <= SPACE - PAGE {
      SamePages(len);
    }
    forall a | Owns(sys, a) ensures Owns(sys', a) {
      OwnsIs(sys, a);
      OwnsIs(sys', a);
      ReserveKeepsUsed(sys.pmm, i, P.RoundUp(len), perChunk, mapped, a.page, Ceil(a.len));
      ExtendsMapsTo(sys.vm, sys'.vm, PageNo(a.virt), a.page, Ceil(a.len));
    }
  }

  lemma BlockGot(s: P.State, len: nat, perChunk: nat, mapped: bool)
    requires P.Inv(s) && 1 <= perChunk && HasRoom(s, len)
    ensures var (s', i) := (P.Get(s, len, perChunk, mapped).0, P.FirstFit(s.regions, P.RoundUp(len)));
            && i < |s.regions| && !s.regions[i].inUse && P.RoundUp(len) <= s.regions[i].pages
            && s' == P.Reserve(s, i, P.RoundUp(len), perChunk, mapped) && s' != s
            && (P.RoundUp(len) > 0 ==> P.PagesOf(s'.regions, false) < P.PagesOf(s.regions, false))
  {
    P.GetReserves(s, len, perChunk, mapped);
    var i := P.FirstFit(s.regions, P.RoundUp(len));
    BlockTaken(s, P.Get(s, len, perChunk, mapped).0, i, P.RoundUp(len), mapped);
  }

  lemma BlockTaken(s: P.State, s': P.State, i: nat, pages: nat, mapped: bool)
    requires i < |s.regions| && !s.regions[i].inUse && P.Reserved(s, s', i, pages, mapped)
    ensures s' != s
    ensures pages > 0 ==> P.PagesOf(s'.regions, false) < P.PagesOf(s.regions, false)
  {
    if pages > 0 {
      var block := P.RegionPages(s'.regions[i]);
      assert s'.regions[i].Has(s'.regions[i].first);
      assert s'.regions[i].first in block;
    }
  }

  /** Isolation over whole runs: however memory is allocated and released, with whatever lengths,
      what is live stays isolated, and the manager keeps exactly the pages it had at boot. */
  ghost function After(boot: Sys, ops: seq<Op>, perChunk: nat, chunkBytes: nat): (r: Run)
    requires SysInv(boot) && 1 <= perChunk
    ensures r.Running? ==> MemInv(r.sys, r.live) && P.AllPages(r.sys.pmm) == P.AllPages(boot.pmm)
  {
    if ops == [] then Running(boot, [])
    else
      match After(boot, ops[..|ops| - 1], perChunk, chunkBytes)
      case Running(sys, live) =>
        ExecKeeps(sys, live, ops[|ops| - 1], perChunk, chunkBytes);
        Exec(sys, live, ops[|ops| - 1], perChunk, chunkBytes)
      case Stopped => Stopped
      case Misused => Misused
  }

  lemma EveryRunIsIsolated(boot: Sys, ops: seq<Op>, perChunk: nat, chunkBytes: nat)
    requires SysInv(boot) && 1 <= perChunk
    ensures match After(boot, ops, perChunk, chunkBytes)
            case Running(sys, live) => forall i, j :: 0 <= i < j < |live| ==> Isolated(sys, live[i], live[j])
            case _ => true
  {
    var r := After(boot, ops, perChunk, chunkBytes);
    hide After;
    if r.Running? {
      forall i, j | 0 <= i < j < |r.live| ensures Isolated(r.sys, r.live[i], r.live[j]) {
        LiveMemoryIsIsolated(r.sys, r.live, i, j);
      }
    }
  }
}
