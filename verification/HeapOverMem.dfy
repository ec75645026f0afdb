/** The heap over `get_mem` and `free_mem`: where its pages come from, and where they go. */
module HeapOverMem {
  import opened Machine
  import opened MemModel
  import opened PagingModel
  import H = HeapModel

  /** The heap, the memory below it with all live allocations, and the addresses of those that are not
      pages of the heap. */
  datatype World = World(heap: H.State, sys: Sys, live: seq<Alloc>, others: set<nat>)

  ghost function Addresses(live: seq<Alloc>): set<nat> { set i | 0 <= i < |live| :: live[i].virt }

  /** The pages that the heap holds are exactly the live allocations that nobody else made, and each is
      one page long. */
  ghost predicate WorldInv(w: World) {
    && H.Inv(w.heap) && MemInv(w.sys, w.live)
    && Addresses(w.live) == H.Pages(w.heap.cells) + w.others && H.Pages(w.heap.cells) !! w.others
    && PageLong(w.live, H.Pages(w.heap.cells))
  }

  ghost predicate PageLong(live: seq<Alloc>, pages: set<nat>) {
    forall i :: 0 <= i < |live| && live[i].virt in pages ==> live[i].len == PAGE
  }

  /** `Other` is a call of `get_mem` or `free_mem` that the heap does not make. */
  datatype Op = Malloc(size: nat) | Free(ptr: nat) | Other(op: MemModel.Op)

  /** A run stops where the kernel aborts, faults, or goes on forever; freeing a page of the heap behind
      its back is a misuse. */
  datatype Run = Works(w: World) | Halted | Misuse

  /** Index of the live allocation at an address. */
  ghost predicate LiveAt(live: seq<Alloc>, addr: nat, i: nat) { i < |live| && live[i].virt == addr }

  ghost function Exec(w: World, op: Op, perChunk: nat, chunkBytes: nat): Run
    requires WorldInv(w) && 1 <= perChunk
  {
    match op
    case Malloc(size) => ExecMalloc(w, size, perChunk, chunkBytes)
    case Free(ptr) =>
      if ptr == 0 then Works(w)
      else if H.Succeeds(w.heap, H.Free(ptr)) then
        H.FindsLive(w.heap.cells, ptr);
        ExecFree(w, H.BlockAt(w.heap.cells, ptr))
      else Halted
    case Other(o) => ExecOther(w, o, perChunk, chunkBytes)
  }

  /** `malloc`, with `get_mem` in `allocate_more_mem`. */
  ghost function ExecMalloc(w: World, size: nat, perChunk: nat, chunkBytes: nat): Run
    requires WorldInv(w) && 1 <= perChunk
  {
    if H.FirstFit(w.heap.cells, size) < |w.heap.cells| then Works(w.(heap := H.MallocState(w.heap, size, 0)))
    else if size > H.MAX_PAYLOAD then Halted
    else
      var (r, page, sys) := GetMem(w.sys, PAGE, perChunk, chunkBytes);
      if r != MemSuccess then Halted
      else
        GotPageIsFresh(w, perChunk, chunkBytes);
        Works(World(H.MallocState(w.heap, size, page), sys, w.live + [Alloc(page, PAGE, sys.vm[PageNo(page)])], w.others))
  }

  /** `free`, with `free_mem` in `return_mem`, which aborts if that does not succeed. */
  ghost function ExecFree(w: World, b: nat): Run
    requires WorldInv(w) && b < |w.heap.cells| && w.heap.cells[b].inUse
  {
    var heap := H.FreeState(w.heap, b);
    if heap.calls == w.heap.calls then Works(w.(heap := heap))
    else
      FreeReturnsPage(w.heap, b);
      var page := heap.calls[|w.heap.calls|].page;
      if i: nat :| LiveAt(w.live, page, i) && PageNo(page) in w.sys.vm then
        var (r, sys) := FreeMem(w.sys, page, PAGE, PhysOf(w.sys.vm, page));
        if r == MemSuccess then Works(World(heap, sys, w.live[..i] + w.live[i + 1..], w.others)) else Halted
      else Halted
  }

  ghost function ExecOther(w: World, op: MemModel.Op, perChunk: nat, chunkBytes: nat): Run
    requires WorldInv(w) && 1 <= perChunk
  {
    if op.Release? && op.addr in H.Pages(w.heap.cells) then Misuse
    else
      match MemModel.Exec(w.sys, w.live, op, perChunk, chunkBytes)
      case Running(sys, live) => Works(World(w.heap, sys, live, Addresses(live) - H.Pages(w.heap.cells)))
      case Stopped => Halted
      case Misused => Misuse
  }

  // ---------- A page from get_mem is new to the heap ----------

  /** Two allocations that are apart have different addresses. */
  lemma ApartAddresses(sys: Sys, a: Alloc, b: Alloc)
    requires Owns(sys, a) && Apart(a, b) && b.len > 0
    ensures a.virt != b.virt
  {
    assert InBlock(PageNo(a.virt), a.len, PageNo(a.virt)) && InBlock(PageNo(b.virt), b.len, PageNo(b.virt));
    assert PageNo(a.virt) in VirtPages(a) && PageNo(b.virt) in VirtPages(b);
  }

  lemma CellPageHeld(cells: seq<H.Cell>, i: nat)
    requires H.Tiled(cells) && i < |cells|
    ensures H.PageOf(cells[i].addr) in H.Pages(cells)
  {
    H.HeadOfOwnsPage(cells, i);
  }

  lemma NotLiveIsFresh(w: World, page: nat)
    requires WorldInv(w) && page > 0 && page % PAGE == 0 && page !in Addresses(w.live)
    ensures H.FreshPage(w.heap.cells, page)
  {
    forall i | 0 <= i < |w.heap.cells| ensures H.PageOf(w.heap.cells[i].addr) != page {
      CellPageHeld(w.heap.cells, i);
    }
  }

  /** What `get_mem` returns is a page that no header of the heap is on, and no live allocation is at. */
  lemma GotPageIsFresh(w: World, perChunk: nat, chunkBytes: nat)
    requires WorldInv(w) && 1 <= perChunk && GetMem(w.sys, PAGE, perChunk, chunkBytes).0 == MemSuccess
    ensures var (_, page, sys) := GetMem(w.sys, PAGE, perChunk, chunkBytes);
            && H.FreshPage(w.heap.cells, page) && page !in Addresses(w.live) && PageNo(page) in sys.vm
            && MemInv(sys, w.live + [Alloc(page, PAGE, sys.vm[PageNo(page)])])
  {
    var (_, page, sys) := GetMem(w.sys, PAGE, perChunk, chunkBytes);
    GetMemOwns(w.sys, PAGE, perChunk, chunkBytes);
    GetMemOutcomes(w.sys, PAGE, perChunk, chunkBytes);
    var a := Alloc(page, PAGE, sys.vm[PageNo(page)]);
    hide GetMem, HasRoom, HasSpace, SysInv;
    InvAdds(w.sys, sys, w.live, a);
    forall i | 0 <= i < |w.live| ensures w.live[i].virt != page {
      ApartAddresses(w.sys, w.live[i], a);
    }
    OwnsIs(sys, a);
    NotLiveIsFresh(w, page);
  }

  /** `free` returns no page, or one that the heap held, and holds no longer. */
  lemma FreeReturnsPage(s: H.State, b: nat)
    requires H.Inv(s) && b < |s.cells| && s.cells[b].inUse
    ensures var s' := H.FreeState(s, b);
            && H.Inv(s')
            && if s'.calls == s.calls then H.Pages(s'.cells) == H.Pages(s.cells)
               else
                 && |s'.calls| == |s.calls| + 1 && s'.calls[|s.calls|].Returned?
                 && var p := s'.calls[|s.calls|].page;
                    p in H.Pages(s.cells) && H.Pages(s'.cells) == H.Pages(s.cells) - {p}
  {
    var s' := H.FreeState(s, b);
    H.FreeKeepsInv(s, b);
    if s'.calls != s.calls {
      assert s'.calls[..|s'.calls| - 1] == s.calls;
    }
  }

  /** The pages held after `malloc`. */
  lemma MallocPages(s: H.State, size: nat, page: nat)
    requires H.Inv(s) && H.Mallocable(s, size, page)
    ensures var s' := H.MallocState(s, size, page);
            && H.Inv(s')
            && H.Pages(s'.cells) == H.Pages(s.cells) + if H.FirstFit(s.cells, size) < |s.cells| then {} else {page}
  {
    var s' := H.MallocState(s, size, page);
    H.MallocKeepsInv(s, size, page);
    if H.FirstFit(s.cells, size) == |s.cells| {
      assert s'.calls == s.calls + [H.Got(page)] && s'.calls[..|s'.calls| - 1] == s.calls;
    }
  }

  // ---------- Every step keeps the two together ----------

  lemma AddAddress(live: seq<Alloc>, a: Alloc)
    ensures Addresses(live + [a]) == Addresses(live) + {a.virt}
  {
    assert (live + [a])[|live|] == a;
    forall x | x in Addresses(live) ensures x in Addresses(live + [a]) {
      var i :| 0 <= i < |live| && live[i].virt == x;
      assert (live + [a])[i] == live[i];
    }
  }

  lemma RemoveAddress(sys: Sys, live: seq<Alloc>, i: nat)
    requires MemInv(sys, live) && i < |live|
    ensures Addresses(live[..i] + live[i + 1..]) == Addresses(live) - {live[i].virt}
  {
    var rest := live[..i] + live[i + 1..];
    forall x | x in Addresses(live) && x != live[i].virt ensures x in Addresses(rest) {
      var k :| 0 <= k < |live| && live[k].virt == x;
      assert rest[if k < i then k else k - 1] == live[k];
    }
    forall k | 0 <= k < |rest| ensures rest[k].virt in Addresses(live) && rest[k].virt != live[i].virt {
      var l := if k < i then k else k + 1;
      assert rest[k] == live[l];
      DifferentAddresses(sys, live, l, i);
    }
  }

  lemma DifferentAddresses(sys: Sys, live: seq<Alloc>, i: nat, j: nat)
    requires MemInv(sys, live) && i < |live| && j < |live| && i != j
    ensures live[i].virt != live[j].virt
  {
    if i < j {
      ApartAddresses(sys, live[i], live[j]);
    } else {
      ApartAddresses(sys, live[j], live[i]);
    }
  }

  lemma MallocKeeps(w: World, size: nat, perChunk: nat, chunkBytes: nat)
    requires WorldInv(w) && 1 <= perChunk
    ensures var r := ExecMalloc(w, size, perChunk, chunkBytes);
            && (r.Works? ==> WorldInv(r.w))
            && (r.Halted? <==> H.FirstFit(w.heap.cells, size) == |w.heap.cells|
                                && (size > H.MAX_PAYLOAD || GetMem(w.sys, PAGE, perChunk, chunkBytes).0 != MemSuccess))
  {
    if H.FirstFit(w.heap.cells, size) < |w.heap.cells| {
      MallocPages(w.heap, size, 0);
    } else if size <= H.MAX_PAYLOAD && GetMem(w.sys, PAGE, perChunk, chunkBytes).0 == MemSuccess {
      NewPageKeeps(w, size, perChunk, chunkBytes);
    }
  }

  lemma WorldIs(w: World)
    ensures WorldInv(w) <==>
            && H.Inv(w.heap) && MemInv(w.sys, w.live)
            && Addresses(w.live) == H.Pages(w.heap.cells) + w.others && H.Pages(w.heap.cells) !! w.others
            && PageLong(w.live, H.Pages(w.heap.cells))
  {
  }

  /** `malloc` with a page from `get_mem`. */
  lemma NewPageKeeps(w: World, size: nat, perChunk: nat, chunkBytes: nat)
    requires WorldInv(w) && 1 <= perChunk && GetMem(w.sys, PAGE, perChunk, chunkBytes).0 == MemSuccess
    requires H.FirstFit(w.heap.cells, size) == |w.heap.cells| && size <= H.MAX_PAYLOAD
    ensures var (_, page, sys) := GetMem(w.sys, PAGE, perChunk, chunkBytes);
            && H.Tiled(w.heap.cells) && H.Mallocable(w.heap, size, page) && PageNo(page) in sys.vm
            && WorldInv(World(H.MallocState(w.heap, size, page), sys,
                              w.live + [Alloc(page, PAGE, sys.vm[PageNo(page)])], w.others))
  {
    var (_, page, sys) := GetMem(w.sys, PAGE, perChunk, chunkBytes);
    GotPageIsFresh(w, perChunk, chunkBytes);
    hide GetMem, MemInv, H.FreshPage, H.Pages, Addresses, PageLong;
    var a := Alloc(page, PAGE, sys.vm[PageNo(page)]);
    MallocPages(w.heap, size, page);
    hide *;
    WorldIs(w);
    AddAddress(w.live, a);
    AddPageLong(w.live, a, H.Pages(w.heap.cells));
    WorldIs(World(H.MallocState(w.heap, size, page), sys, w.live + [a], w.others));
  }

  lemma AddPageLong(live: seq<Alloc>, a: Alloc, pages: set<nat>)
    requires PageLong(live, pages) && a.virt !in Addresses(live)
    ensures a.virt !in pages ==> PageLong(live + [a], pages)
    ensures a.len == PAGE ==> PageLong(live + [a], pages + {a.virt})
  {
    assert forall i :: 0 <= i < |live| ==> live[i].virt in Addresses(live);
  }

  lemma RemovePageLong(live: seq<Alloc>, i: nat, pages: set<nat>)
    requires PageLong(live, pages) && i < |live|
    ensures PageLong(live[..i] + live[i + 1..], pages) && PageLong(live[..i] + live[i + 1..], pages - {live[i].virt})
  {
    var rest := live[..i] + live[i + 1..];
    assert forall k :: 0 <= k < |rest| ==> rest[k] == live[if k < i then k else k + 1];
  }

  /** Freeing a live block never stops the kernel: a page that goes back is live and freed with its own
      length, so that `free_mem` succeeds. */
  lemma FreeKeeps(w: World, b: nat)
    requires WorldInv(w) && b < |w.heap.cells| && w.heap.cells[b].inUse
    ensures ExecFree(w, b).Works? && WorldInv(ExecFree(w, b).w)
  {
    var heap := H.FreeState(w.heap, b);
    FreeReturnsPage(w.heap, b);
    if heap.calls != w.heap.calls {
      var page := heap.calls[|w.heap.calls|].page;
      assert page in Addresses(w.live);
      PageIsLive(w, page);
      hide FreeMem, WorldInv, H.FreeState;
      forall k: nat | LiveAt(w.live, page, k) && PageNo(page) in w.sys.vm ensures
          var (r, sys) := FreeMem(w.sys, page, PAGE, PhysOf(w.sys.vm, page));
          r == MemSuccess && WorldInv(World(heap, sys, w.live[..k] + w.live[k + 1..], w.others))
      {
        ReturnKeeps(w, heap, page, k);
      }
    }
  }

  /** A page that the heap holds is a live allocation, and is mapped. */
  lemma PageIsLive(w: World, page: nat)
    requires WorldInv(w) && page in H.Pages(w.heap.cells)
    ensures PageNo(page) in w.sys.vm && exists i: nat :: LiveAt(w.live, page, i)
  {
    assert page in Addresses(w.live);
    var i: nat :| i < |w.live| && w.live[i].virt == page;
    assert LiveAt(w.live, page, i);
    BlockMappedBy(w.sys, w.live[i]);
  }

  lemma ReturnKeeps(w: World, heap: H.State, page: nat, k: nat)
    requires WorldInv(w) && H.Inv(heap) && LiveAt(w.live, page, k) && PageNo(page) in w.sys.vm
    requires page in H.Pages(w.heap.cells) && H.Pages(heap.cells) == H.Pages(w.heap.cells) - {page}
    ensures var (r, sys) := FreeMem(w.sys, page, PAGE, PhysOf(w.sys.vm, page));
            r == MemSuccess && WorldInv(World(heap, sys, w.live[..k] + w.live[k + 1..], w.others))
  {
    hide FreeMem, H.Pages, Addresses, H.Inv;
    var sys := FreeMem(w.sys, page, PAGE, PhysOf(w.sys.vm, page)).1;
    assert w.live[k].virt == page && w.live[k].len == PAGE && Owns(w.sys, w.live[k]);
    hide *;
    WorldIs(w);
    FreeMemReleases(w.sys, w.live[k]);
    InvRemoves(w.sys, sys, w.live, k);
    RemoveAddress(w.sys, w.live, k);
    RemovePageLong(w.live, k, H.Pages(w.heap.cells));
    WorldIs(World(heap, sys, w.live[..k] + w.live[k + 1..], w.others));
  }

  lemma OtherKeeps(w: World, op: MemModel.Op, perChunk: nat, chunkBytes: nat)
    requires WorldInv(w) && 1 <= perChunk
    ensures var r := ExecOther(w, op, perChunk, chunkBytes); r.Works? ==> WorldInv(r.w)
  {
    if !(op.Release? && op.addr in H.Pages(w.heap.cells)) {
      MemModel.ExecKeeps(w.sys, w.live, op, perChunk, chunkBytes);
      OtherLeavesHeap(w, op, perChunk, chunkBytes);
      hide MemModel.Exec, MemInv, H.Inv;
    }
  }

  /** Calls that the heap does not make leave the allocations that are its pages alone. */
  lemma OtherLeavesHeap(w: World, op: MemModel.Op, perChunk: nat, chunkBytes: nat)
    requires WorldInv(w) && 1 <= perChunk && !(op.Release? && op.addr in H.Pages(w.heap.cells))
    ensures var r := MemModel.Exec(w.sys, w.live, op, perChunk, chunkBytes);
            r.Running? ==> H.Pages(w.heap.cells) <= Addresses(r.live) && PageLong(r.live, H.Pages(w.heap.cells))
  {
    hide *;
    WorldIs(w);
    var r := MemModel.Exec(w.sys, w.live, op, perChunk, chunkBytes);
    if r.Running? && r.live != w.live {
      match op
      case Allocate(len) =>
        AllocatedApart(w, len, perChunk, chunkBytes);
        AddAddress(w.live, r.live[|w.live|]);
        AddPageLong(w.live, r.live[|w.live|], H.Pages(w.heap.cells));
      case Release(addr, len) =>
        ReleaseShape(w.sys, w.live, addr, len, perChunk, chunkBytes);
        var i: nat :| i < |w.live| && w.live[i].virt == addr && r.live == w.live[..i] + w.live[i + 1..];
        RemoveAddress(w.sys, w.live, i);
        RemovePageLong(w.live, i, H.Pages(w.heap.cells));
    }
  }

  lemma ReleaseShape(sys: Sys, live: seq<Alloc>, addr: nat, len: nat, perChunk: nat, chunkBytes: nat)
    requires MemInv(sys, live) && 1 <= perChunk
    ensures var r := MemModel.Exec(sys, live, Release(addr, len), perChunk, chunkBytes);
            r.Running? && r.live != live ==>
              exists i: nat :: i < |live| && live[i].virt == addr && r.live == live[..i] + live[i + 1..]
  {
    hide FreeMem, MemInv, RangeMapped, PhysOf;
  }

  lemma AllocatedApart(w: World, len: nat, perChunk: nat, chunkBytes: nat)
    requires WorldInv(w) && 1 <= perChunk
    ensures var r := MemModel.Exec(w.sys, w.live, Allocate(len), perChunk, chunkBytes);
            r.Running? && r.live != w.live ==>
              |r.live| == |w.live| + 1 && r.live == w.live + [r.live[|w.live|]]
                  && r.live[|w.live|].virt !in Addresses(w.live)
  {
    var r := MemModel.Exec(w.sys, w.live, Allocate(len), perChunk, chunkBytes);
    if r.Running? && r.live != w.live {
      GetMemOwns(w.sys, len, perChunk, chunkBytes);
      var a := r.live[|w.live|];
      OwnsIs(r.sys, a);
      forall i | 0 <= i < |w.live| ensures w.live[i].virt != a.virt {
        ApartAddresses(w.sys, w.live[i], a);
      }
    }
  }

  // ---------- Whole runs ----------

  /** Every call keeps the invariant, and changes the live blocks as its caller expects: `malloc` adds
      one that is large enough, `free` takes out the one it is given, and works exactly for these. */
  lemma StepKeeps(w: World, op: Op, perChunk: nat, chunkBytes: nat)
    requires WorldInv(w) && 1 <= perChunk
    ensures var (r, live) := (Exec(w, op, perChunk, chunkBytes), H.LiveBlocks(w.heap.cells));
            && (r.Works? ==> WorldInv(r.w))
            && (op.Malloc? && r.Works? ==>
                  r.w.others == w.others
                  && exists b :: b !in live && op.size <= b.1 <= op.size + 16
                                 && H.LiveBlocks(r.w.heap.cells) == live + {b})
            && (op.Free? ==> (r.Works? <==> op.ptr == 0 || exists b :: b in live && b.0 == op.ptr))
            && (op.Free? && r.Works? ==>
                  r.w.others == w.others
                  && H.LiveBlocks(r.w.heap.cells) == set b | b in live && (op.ptr == 0 || b.0 != op.ptr))
            && (op.Other? && r.Works? ==>
                  r.w.heap == w.heap
                  && MemModel.Exec(w.sys, w.live, op.op, perChunk, chunkBytes) == Running(r.w.sys, r.w.live))
  {
    match op
    case Malloc(size) => MallocStep(w, size, perChunk, chunkBytes);
    case Free(ptr) => FreeStep(w, ptr, perChunk, chunkBytes);
    case Other(o) =>
      OtherKeeps(w, o, perChunk, chunkBytes);
      hide ExecMalloc, ExecFree, WorldInv, H.LiveBlocks, MemModel.Exec;
  }

  lemma MallocStep(w: World, size: nat, perChunk: nat, chunkBytes: nat)
    requires WorldInv(w) && 1 <= perChunk
    ensures var (r, live) := (Exec(w, Malloc(size), perChunk, chunkBytes), H.LiveBlocks(w.heap.cells));
            r.Works? ==>
              WorldInv(r.w) && r.w.others == w.others
              && exists b :: b !in live && size <= b.1 <= size + 16 && H.LiveBlocks(r.w.heap.cells) == live + {b}
  {
    MallocKeeps(w, size, perChunk, chunkBytes);
    hide WorldInv, H.LiveBlocks;
    var r := ExecMalloc(w, size, perChunk, chunkBytes);
    if r.Works? {
      var page := MallocIs(w, size, perChunk, chunkBytes);
      HeapInv(w);
      hide ExecMalloc, H.MallocState, H.Inv, H.Mallocable;
      H.MallocAddsOneBlock(w.heap, size, page);
      var c := r.w.heap.cells[H.FirstFit(w.heap.cells, size)];
      assert (c.Payload(), c.len) !in H.LiveBlocks(w.heap.cells);
    }
  }

  /** A `malloc` that works is that of the heap, with the page got if one was needed. */
  lemma MallocIs(w: World, size: nat, perChunk: nat, chunkBytes: nat) returns (page: nat)
    requires WorldInv(w) && 1 <= perChunk && ExecMalloc(w, size, perChunk, chunkBytes).Works?
    ensures H.Inv(w.heap) && H.Mallocable(w.heap, size, page)
    ensures ExecMalloc(w, size, perChunk, chunkBytes).w.heap == H.MallocState(w.heap, size, page)
    ensures ExecMalloc(w, size, perChunk, chunkBytes).w.others == w.others
  {
    page := 0;
    if H.FirstFit(w.heap.cells, size) == |w.heap.cells| {
      page := GetMem(w.sys, PAGE, perChunk, chunkBytes).1;
      GotPageIsFresh(w, perChunk, chunkBytes);
    }
    hide GetMem, MemInv, H.FreshPage, H.Pages, Addresses, PageLong, H.MallocState;
  }

  lemma HeapInv(w: World)
    requires WorldInv(w)
    ensures H.Inv(w.heap) && H.Tiled(w.heap.cells)
  {
  }

  lemma FreeStep(w: World, ptr: nat, perChunk: nat, chunkBytes: nat)
    requires WorldInv(w) && 1 <= perChunk
    ensures var (r, live) := (Exec(w, Free(ptr), perChunk, chunkBytes), H.LiveBlocks(w.heap.cells));
            && (r.Works? ==> WorldInv(r.w) && r.w.others == w.others)
            && (r.Works? <==> ptr == 0 || exists b :: b in live && b.0 == ptr)
            && (r.Works? ==> H.LiveBlocks(r.w.heap.cells) == set b | b in live && (ptr == 0 || b.0 != ptr))
  {
    H.PointsToLiveIs(w.heap.cells, ptr);
    HeapInv(w);
    if ptr != 0 && H.PointsToLive(w.heap.cells, ptr) {
      H.FindsLive(w.heap.cells, ptr);
      FreeKeeps(w, H.BlockAt(w.heap.cells, ptr));
      H.FreeRemovesPointed(w.heap, ptr);
      FreeIs(w, H.BlockAt(w.heap.cells, ptr));
    }
    hide WorldInv, ExecFree, H.LiveBlocks, H.Tiled, H.BlockAt, H.Inv, H.FreeState, H.PointsToLive;
  }

  /** A `free` that works is that of the heap. */
  lemma FreeIs(w: World, b: nat)
    requires WorldInv(w) && b < |w.heap.cells| && w.heap.cells[b].inUse
    ensures var r := ExecFree(w, b); r.Works? ==> r.w.heap == H.FreeState(w.heap, b) && r.w.others == w.others
  {
    FreeReturnsPage(w.heap, b);
    hide FreeMem, WorldInv, H.FreeState, H.Pages, H.Inv;
  }

  /** Whatever is allocated and freed, by the heap and by others, the pages of the heap are exactly the
      live allocations that are not the others', and the heap keeps its invariant on them. */
  ghost function After(boot: Sys, ops: seq<Op>, perChunk: nat, chunkBytes: nat): (r: Run)
    requires SysInv(boot) && 1 <= perChunk
    ensures r.Works? ==> WorldInv(r.w)
  {
    if ops == [] then
      assert H.Pages([]) == {};
      Works(World(H.State([], []), boot, [], {}))
    else
      match After(boot, ops[..|ops| - 1], perChunk, chunkBytes)
      case Works(w) =>
        StepKeeps(w, ops[|ops| - 1], perChunk, chunkBytes);
        Exec(w, ops[|ops| - 1], perChunk, chunkBytes)
      case Halted => Halted
      case Misuse => Misuse
  }

  // ---------- The blocks of the heap in physical memory ----------

  /** The byte at `a` is in a page of the heap, which is allocation `i`, and translates into its block. */
  ghost predicate HeapByte(w: World, a: nat, i: nat) {
    && i < |w.live| && w.live[i].virt <= a < w.live[i].virt + PAGE && PageNo(a) in w.sys.vm
    && Translate(w.sys.vm, a) == AddressOf(w.live[i].page) + (a - w.live[i].virt)
  }

  /** The page that a live block is in. */
  lemma BlockPage(s: H.State, b: (nat, nat), x: nat) returns (page: nat)
    requires H.Inv(s) && b in H.LiveBlocks(s.cells) && x < b.1
    ensures page in H.Pages(s.cells) && page <= ByteOf(b, x) < page + PAGE
  {
    H.LiveBlocksAreSeparate(s, b);
    page :| page in H.Pages(s.cells) && page + H.HEADER <= b.0 && b.0 + b.1 <= page + PAGE;
  }

  /** The allocation that a page of the heap is. */
  lemma PageAllocation(w: World, page: nat) returns (i: nat)
    requires WorldInv(w) && page in H.Pages(w.heap.cells)
    ensures LiveAt(w.live, page, i) && Owns(w.sys, w.live[i]) && w.live[i].len == PAGE
  {
    PageIsLive(w, page);
    i :| LiveAt(w.live, page, i);
  }

  lemma BlockByte(w: World, b: (nat, nat), x: nat) returns (i: nat)
    requires WorldInv(w) && b in H.LiveBlocks(w.heap.cells) && x < b.1
    ensures HeapByte(w, ByteOf(b, x), i)
  {
    WorldIs(w);
    var page := BlockPage(w.heap, b, x);
    i := PageAllocation(w, page);
    OwnsIs(w.sys, w.live[i]);
    hide H.LiveBlocks, H.Inv, H.Pages, MemInv, WorldInv, Addresses, UsedAt, MapsTo, Owns, Translate, PageNo, AddressOf;
    PageByte(w.sys.vm, page, w.live[i].page, ByteOf(b, x) - page);
  }

  lemma PageByte(m: VMap, virt: nat, page: nat, offset: nat)
    requires MapsTo(m, PageNo(virt), page, Ceil(PAGE)) && virt % PAGE == 0 && offset < PAGE
    ensures PageNo(virt + offset) in m && Translate(m, virt + offset) == AddressOf(page) + offset
  {
    OffsetInPage(virt, offset);
    assert Ceil(PAGE) == 1;
  }

  lemma OffsetInPage(virt: nat, offset: nat)
    requires virt % PAGE == 0 && offset < PAGE
    ensures (virt + offset) / PAGE == virt / PAGE && (virt + offset) % PAGE == offset
  {
  }

  function ByteOf(b: (nat, nat), x: nat): nat { b.0 + x }

  /** Both addresses are mapped, to different bytes of physical memory. */
  ghost predicate DifferentBytes(m: VMap, a: nat, c: nat) {
    PageNo(a) in m && PageNo(c) in m && Translate(m, a) != Translate(m, c)
  }

  ghost predicate Separate(m: VMap, b: (nat, nat), d: (nat, nat)) {
    forall x: nat, y: nat :: x < b.1 && y < d.1 ==> DifferentBytes(m, ByteOf(b, x), ByteOf(d, y))
  }

  /** No two live blocks of the heap share a byte of physical memory. */
  ghost predicate BlocksShareNothing(w: World) {
    forall b, d :: b in H.LiveBlocks(w.heap.cells) && d in H.LiveBlocks(w.heap.cells) && b != d ==>
      Separate(w.sys.vm, b, d)
  }

  lemma BytesDiffer(w: World, b: (nat, nat), d: (nat, nat), x: nat, y: nat)
    requires WorldInv(w) && b in H.LiveBlocks(w.heap.cells) && d in H.LiveBlocks(w.heap.cells) && b != d
    requires x < b.1 && y < d.1
    ensures DifferentBytes(w.sys.vm, ByteOf(b, x), ByteOf(d, y))
  {
    var i := BlockByte(w, b, x);
    var j := BlockByte(w, d, y);
    H.LiveBlocksAreSeparate(w.heap, b);
    hide H.LiveBlocks, H.Inv, H.Pages, MemInv, Translate, PageNo;
    if i != j {
      DifferentBlocks(w, i, j);
    }
  }

  lemma DifferentBlocks(w: World, i: nat, j: nat)
    requires WorldInv(w) && i < |w.live| && j < |w.live| && i != j
    ensures w.live[i].page != w.live[j].page
  {
    if i < j {
      assert Apart(w.live[i], w.live[j]);
    } else {
      assert Apart(w.live[j], w.live[i]);
    }
  }

  /** In every run from an empty heap, whatever else is allocated and freed, no two live blocks share a
      byte of physical memory. */
  lemma EveryRunSharesNothing(boot: Sys, ops: seq<Op>, perChunk: nat, chunkBytes: nat)
    requires SysInv(boot) && 1 <= perChunk
    ensures var r := After(boot, ops, perChunk, chunkBytes); r.Works? ==> BlocksShareNothing(r.w)
  {
    var r := After(boot, ops, perChunk, chunkBytes);
    hide After, WorldInv, H.LiveBlocks, DifferentBytes, ByteOf;
    if r.Works? {
      forall b, d | b in H.LiveBlocks(r.w.heap.cells) && d in H.LiveBlocks(r.w.heap.cells) && b != d
        ensures Separate(r.w.sys.vm, b, d)
      {
        forall x: nat, y: nat | x < b.1 && y < d.1 ensures DifferentBytes(r.w.sys.vm, ByteOf(b, x), ByteOf(d, y)) {
          BytesDiffer(r.w, b, d, x, y);
        }
      }
    }
  }
}
