/** `get_mem` and `free_mem` over the manager of physical memory and the address space. */
module Mem {
  import opened Machine
  import opened MemModel
  import opened PagingModel
  import P = PhysMemModel
  import PhysMem
  import Paging

  /** `unmap_range`; `UnmapAborted` is where the physical manager stops the kernel. */
  datatype UnmapResult = Unmap(r: MapResult) | UnmapAborted

  class Memory {
    const pmm: PhysMem.Manager
    const vm: Paging.AddressSpace

    ghost predicate Valid()
      reads this, pmm, pmm.list, pmm.chunks, pmm.pool, vm`frames, vm.searchable
    {
      pmm.Valid() && vm.Valid()
    }

    ghost function Current(): Sys
      requires Valid()
      reads this, pmm, pmm.list, pmm.chunks, pmm.pool, vm`frames, vm.searchable
    {
      Sys(pmm.Current(), vm.Map())
    }

    constructor (pmm: PhysMem.Manager, vm: Paging.AddressSpace)
      requires pmm.Valid() && vm.Valid()
      ensures this.pmm == pmm && this.vm == vm && Valid()
    {
      this.pmm, this.vm := pmm, vm;
    }

    method GetMem(len: nat) returns (r: MemResult, addr: nat)
      requires Valid() && len < SPACE
      modifies pmm, pmm.chunks`next, pmm.pool, vm`frames, vm.searchable
      ensures Valid()
      ensures (r, addr, Current()) == MemModel.GetMem(old(Current()), len, pmm.perChunk, pmm.chunkBytes)
    {
      hide *;
      ghost var sys := Current();
      Parts();
      GetMemCases(sys, len, pmm.perChunk, pmm.chunkBytes);
      var got, page := pmm.GetMemArea(len, vm);
      Joined();
      if got == P.PmmNoMem {
        return MemNoPhysMem, 0;
      }
      ghost var m := vm.Map();
      var mapped;
      mapped, addr := vm.MapRange(page * PAGE, len);
      Joined();
      match mapped {
        case MapSuccess =>
          BlockIsMapped(m, page * PAGE, len);
          r := if vm.IsMapped(addr) then MemSuccess else Faulted;
        case NoVirtMem => r := MemNoVirtMem;
        case _ => r := Aborted;
      }
    }

    lemma Parts()
      requires Valid()
      ensures pmm.Valid() && vm.Valid() && Current() == Sys(pmm.Current(), vm.Map())
      ensures P.Inv(pmm.Current()) && 1 <= pmm.perChunk
    {
    }

    lemma Joined()
      requires pmm.Valid() && vm.Valid()
      ensures Valid() && Current() == Sys(pmm.Current(), vm.Map())
    {
    }

    lemma BlockIsMapped(m: VMap, phys: nat, len: nat)
      requires phys < SPACE && phys % PAGE == 0 && len < SPACE && vm.Valid()
      requires MapRangeResult(m, phys, len).0.MapSuccess? && vm.Map() == MapRangeResult(m, phys, len).2
      ensures var addr := MapRangeResult(m, phys, len).1;
              addr < SPACE && vm.searchable.Length == PAGES && (vm.IsMapped(addr) <==> PageNo(addr) in vm.Map())
    {
      AddressBelow(m, phys, len);
      hide MapRangeResult;
      MarkIs(MapRangeResult(m, phys, len).1);
    }

    lemma MarkIs(a: nat)
      requires vm.Valid() && a < SPACE && PageNo(a) < WINDOW
      ensures vm.searchable.Length == PAGES && (vm.IsMapped(a) <==> PageNo(a) in vm.Map())
    {
    }

    /** With `physAuto` the physical block is freed too, before the pages are unmapped. */
    method UnmapRange(virt: nat, len: nat, physAuto: bool) returns (r: UnmapResult)
      requires Valid() && virt < SPACE && PageNo(virt) + BytesToPages(len) <= WINDOW
      modifies pmm`list, pmm`regions, pmm`headersInUse, vm`frames, vm.searchable
      modifies pmm.list`next, pmm.list`prev, pmm.list`size, pmm.list`inUse, pmm.list`headerInUse
      ensures !r.UnmapAborted? ==> Valid()
      ensures !physAuto && RangeMapped(old(vm.Map()), PageNo(virt), BytesToPages(len)) ==>
                r == Unmap(MapSuccess) &&
                  Current() == old(Current()).(vm := Without(old(vm.Map()), PageNo(virt), BytesToPages(len)))
      ensures !RangeMapped(old(vm.Map()), PageNo(virt), BytesToPages(len)) ==>
          r == Unmap(NotMapped) && Current() == old(Current())
      ensures physAuto ==>
                match MemModel.UnmapRange(old(Current()), virt, len, old(vm.VirtToPhys(virt)))
                case (_, Abort, _) => r == UnmapAborted
                case (m, _, sys) => r == Unmap(m) && Current() == sys
    {
      hide *;
      Parts();
      ghost var sys, phys: nat := Current(), vm.VirtToPhys(virt);
      UnmapCases(sys, virt, len, phys);
      var all := vm.AllMapped(virt, len);
      if !all {
        return Unmap(NotMapped);
      }
      if physAuto {
        var attempt := pmm.FreeMemArea(vm.VirtToPhys(virt), len);
        if attempt == PhysMem.FreeAborted {
          return UnmapAborted;
        }
        Joined();
        if attempt == PhysMem.FreeInvalid {
          return Unmap(InvalidOption);
        }
      }
      vm.UnmapPages(virt, len);
      Joined();
      return Unmap(MapSuccess);
    }

    method FreeMem(addr: nat, len: nat) returns (r: MemResult)
      requires Valid() && addr < SPACE && PageNo(addr) + BytesToPages(len) <= WINDOW
      modifies pmm`list, pmm`regions, pmm`headersInUse, vm`frames, vm.searchable
      modifies pmm.list`next, pmm.list`prev, pmm.list`size, pmm.list`inUse, pmm.list`headerInUse
      ensures var (r', sys) := MemModel.FreeMem(old(Current()), addr, len, old(vm.VirtToPhys(addr)));
              r == r' && (!r.Stops() ==> Valid() && Current() == sys)
      ensures PageNo(addr) in old(vm.Map()) ==>
                var (r', sys) := MemModel.FreeMem(old(Current()), addr, len, PhysOf(old(vm.Map()), addr));
                r == r' && (!r.Stops() ==> Valid() && Current() == sys)
    {
      hide *;
      Parts();
      if PageNo(addr) in vm.Map() {
        PhysIs(addr);
      }
      FreeMemCases(Current(), addr, len, vm.VirtToPhys(addr));
      if addr == 0 {
        return MemInvalid;
      }
      var u := UnmapRange(addr, len, true);
      match u {
        case UnmapAborted => r := Aborted;
        case Unmap(MapSuccess) => r := MemSuccess;
        case Unmap(NotMapped) => r := MemInvalid;
        case Unmap(_) => r := Aborted;
      }
    }

    /** What `virt_to_phys` reads for a mapped page. */
    lemma PhysIs(virt: nat)
      requires Valid() && virt < SPACE && PageNo(virt) in vm.Map()
      ensures vm.VirtToPhys(virt) == PhysOf(vm.Map(), virt)
    {
    }
  }

  lemma FreeMemCases(sys: Sys, addr: nat, len: nat, phys: nat)
    ensures var (r, sys') := MemModel.FreeMem(sys, addr, len, phys);
            if addr == 0 then r == MemInvalid && sys' == sys
            else
              match MemModel.UnmapRange(sys, addr, len, phys)
              case (MapSuccess, f, u) => r == MemSuccess && sys' == u && f.Freed?
              case (NotMapped, f, u) => r == MemInvalid && sys' == u && f == P.Invalid
              case (m, f, _) => r == Aborted && m == InvalidOption && r.Stops()
    ensures !MemSuccess.Stops() && !MemInvalid.Stops() && Aborted.Stops()
  {
  }

  lemma UnmapCases(sys: Sys, virt: nat, len: nat, phys: nat)
    ensures var (m, f, sys') := MemModel.UnmapRange(sys, virt, len, phys);
            && (RangeMapped(sys.vm, PageNo(virt), BytesToPages(len)) <==>
                  forall p :: virt / PAGE <= p < virt / PAGE + BytesToPages(len) ==> p in sys.vm)
            && PageNo(virt) == virt / PAGE
            && (!RangeMapped(sys.vm, PageNo(virt), BytesToPages(len)) ==>
              m == NotMapped && f == P.Invalid && sys' == sys)
            && (RangeMapped(sys.vm, PageNo(virt), BytesToPages(len)) ==>
                  && f == P.Free(sys.pmm, phys, len)
                  && match f
                     case Freed(s) => m == MapSuccess &&
                       sys' == Sys(s, Without(sys.vm, PageNo(virt), BytesToPages(len)))
                     case _ => m == InvalidOption && sys' == sys)
  {
  }

  lemma AddressBelow(m: VMap, phys: nat, len: nat)
    requires phys % PAGE == 0 && len < SPACE && MapRangeResult(m, phys, len).0.MapSuccess?
    ensures var addr := MapRangeResult(m, phys, len).1; addr < SPACE && PageNo(addr) < WINDOW
  {
    hide FindResult, Fits;
    assert SpanOf(phys, len) == len;
    var base := FindResult(m, len);
    assert MapRangeResult(m, phys, len).1 == base && Fits(m, base / PAGE, len);
    FitsEndsBelowWindow(m, base / PAGE, len);
    FindResultIs(m, len);
  }

  lemma GetMemCases(sys: Sys, len: nat, perChunk: nat, chunkBytes: nat)
    requires P.Inv(sys.pmm) && 1 <= perChunk && len < SPACE
    ensures var (mapped, vm) := PhysMem.GetMapping(sys.pmm, sys.vm, len, chunkBytes);
            var (pmm, r, page) := P.Get(sys.pmm, len, perChunk, mapped);
            && page * PAGE < SPACE && page * PAGE % PAGE == 0
            && (r == P.PmmSuccess || r == P.PmmNoMem)
            && (r == P.PmmNoMem ==> MemModel.GetMem(sys, len, perChunk, chunkBytes) == (MemNoPhysMem, 0, Sys(pmm, vm)))
            && (r == P.PmmSuccess ==>
                  var (m, virt, vm') := MapRangeResult(vm, page * PAGE, len);
                  MemModel.GetMem(sys, len, perChunk, chunkBytes) ==
                    (match m
                     case MapSuccess => (if PageNo(virt) in vm' then MemSuccess else Faulted)
                     case NoVirtMem => MemNoVirtMem
                     case _ => Aborted, virt, Sys(pmm, vm')))
  {
    var (mapped, vm) := PhysMem.GetMapping(sys.pmm, sys.vm, len, chunkBytes);
    PageInSpace(sys.pmm, len, perChunk, mapped);
    hide P.Get, PhysMem.GetMapping, P.Inv;
    MapBlockIs(Sys(P.Get(sys.pmm, len, perChunk, mapped).0, vm), P.Get(sys.pmm, len, perChunk, mapped).2, len);
    hide MapRangeResult, MapBlock;
  }

  lemma PageInSpace(s: P.State, len: nat, perChunk: nat, mapped: bool)
    requires P.Inv(s) && 1 <= perChunk
    ensures var (_, r, page) := P.Get(s, len, perChunk, mapped);
            page * PAGE < SPACE && page * PAGE % PAGE == 0 && (r == P.PmmSuccess || r == P.PmmNoMem)
  {
    var i := P.FirstFit(s.regions, P.RoundUp(len));
    assert i < |s.regions| ==> s.regions[i].End() < PAGES;
    hide P.Reserve;
  }

  lemma MapBlockIs(sys: Sys, page: nat, len: nat)
    ensures var (m, virt, vm) := MapRangeResult(sys.vm, page * PAGE, len);
            MapBlock(sys, page, len) ==
              (match m
               case MapSuccess => (if PageNo(virt) in vm then MemSuccess else Faulted)
               case NoVirtMem => MemNoVirtMem
               case _ => Aborted, virt, Sys(sys.pmm, vm))
  {
    NoVirtIsNull(sys.vm, page * PAGE, len);
    hide MapRangeResult;
  }

  lemma NoVirtIsNull(m: VMap, phys: nat, len: nat)
    ensures MapRangeResult(m, phys, len).0.NoVirtMem? ==> MapRangeResult(m, phys, len).1 == 0
  {
  }
}
