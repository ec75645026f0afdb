/** The physical memory manager: linked headers that live in chunks, and the search, split and
    merge loops over them. */
module PhysMem {
  import opened Machine
  import opened PhysMemModel
  import PagingModel
  import Paging

  class PhysMemHeader {
    var next: PhysMemHeader?
    var prev: PhysMemHeader?
    var memory: nat        // page number
    var size: nat          // in pages
    var inUse: bool
    var headerInUse: bool  // is the header controlling memory?

    constructor ()
      ensures !headerInUse && next == null && prev == null
    {
      next, prev, memory, size, inUse, headerInUse := null, null, 0, 0, true, false;
    }
  }

  class PhysMemHeaderList {
    var next: PhysMemHeaderList?
    const headers: seq<PhysMemHeader>

    constructor (count: nat)
      ensures next == null && |headers| == count
      ensures forall j :: 0 <= j < count ==>
                fresh(headers[j]) && !headers[j].headerInUse && headers[j].next == null && headers[j].prev == null
      ensures forall j, k :: 0 <= j < k < count ==> headers[j] != headers[k]
    {
      var hs: seq<PhysMemHeader> := [];
      for i := 0 to count
        invariant |hs| == i
        invariant forall j :: 0 <= j < i ==>
          fresh(hs[j]) && !hs[j].headerInUse && hs[j].next == null && hs[j].prev == null
        invariant forall j, k :: 0 <= j < k < i ==> hs[j] != hs[k]
      {
        var h := new PhysMemHeader();
        hs := hs + [h];
      }
      next, headers := null, hs;
    }
  }

  function NodeAt(list: seq<PhysMemHeader>, i: int): PhysMemHeader? {
    if 0 <= i < |list| then list[i] else null
  }

  lemma NodeAtIs(list: seq<PhysMemHeader>, i: nat)
    ensures NodeAt(list, i) == if i < |list| then list[i] else null
  {
  }

  function ChunkAt(chunks: seq<PhysMemHeaderList>, i: int): PhysMemHeaderList? {
    if 0 <= i < |chunks| then chunks[i] else null
  }

  ghost predicate ChunksDiffer(chunks: seq<PhysMemHeaderList>) {
    forall k, l :: 0 <= k < l < |chunks| ==> chunks[k] != chunks[l]
  }

  lemma AppendDiffers(chunks: seq<PhysMemHeaderList>, c: PhysMemHeaderList)
    requires ChunksDiffer(chunks) && c !in chunks
    ensures ChunksDiffer(chunks + [c])
  {
  }

  lemma ChunkDiffers(chunks: seq<PhysMemHeaderList>, k: nat, l: nat)
    requires ChunksDiffer(chunks) && k < l < |chunks|
    ensures chunks[k] != chunks[l]
  {
  }

  lemma ChunkAtIs(chunks: seq<PhysMemHeaderList>, i: nat)
    ensures ChunkAt(chunks, i) == if i < |chunks| then chunks[i] else null
  {
  }

  lemma MaybeIs(h: PhysMemHeader?)
    ensures Maybe(h) == if h == null then {} else {h}
  {
  }

  lemma CutSize(regions: seq<Region>, i: nat, pages: nat)
    requires i < |regions| && pages <= regions[i].pages
    ensures |Cut(regions, i, pages)| == |regions| + 1
  {
  }

  lemma MergeSize(regions: seq<Region>, i: nat)
    requires i + 1 < |regions|
    ensures |MergeAt(regions, i)| == |regions| - 1
  {
  }

  ghost predicate AllDiffer(list: seq<PhysMemHeader>) { forall i, j :: 0 <= i < j < |list| ==> list[i] != list[j] }

  lemma Differ(list: seq<PhysMemHeader>, i: nat, j: nat)
    requires AllDiffer(list)
    ensures i < |list| && j < |list| && i != j ==> list[i] != list[j]
  {
    assert i < j < |list| ==> list[i] != list[j];
    assert j < i < |list| ==> list[j] != list[i];
  }

  /** The fields of a header in a list of these regions. */
  datatype Shape = Shape(next: PhysMemHeader?, prev: PhysMemHeader?, memory: nat, size: nat, inUse: bool)

  ghost function ShapeAt(list: seq<PhysMemHeader>, regions: seq<Region>, k: int): Shape
    requires 0 <= k < |list| == |regions|
  {
    Shape(NodeAt(list, k + 1), NodeAt(list, k - 1), regions[k].first, regions[k].pages, regions[k].inUse)
  }

  lemma ShapeIs(list: seq<PhysMemHeader>, regions: seq<Region>, k: nat)
    requires k < |list| == |regions|
    ensures ShapeAt(list, regions, k)
            == Shape(if k + 1 < |list| then list[k + 1] else null, if k > 0 then list[k - 1] else null,
                     regions[k].first, regions[k].pages, regions[k].inUse)
  {
  }

  lemma AppendShape(before: seq<PhysMemHeader>, regs: seq<Region>, h: PhysMemHeader, r: Region, j: nat)
    requires |before| == |regs| && j <= |before|
    ensures ShapeAt(before + [h], regs + [r], j) ==
            (if j == |before| then Shape(null, if j == 0 then null else before[j - 1], r.first, r.pages, r.inUse)
             else if j == |before| - 1 then ShapeAt(before, regs, j).(next := h)
             else ShapeAt(before, regs, j))
  {
  }

  lemma InsertShape(before: seq<PhysMemHeader>, regs: seq<Region>, temp: PhysMemHeader, i: nat, pages: nat, j: nat)
    requires i < |before| == |regs| && pages <= regs[i].pages && j <= |before|
    ensures var (l, r) := (before[..i + 1] + [temp] + before[i + 1..], Cut(regs, i, pages));
            && j < |l| == |r|
            && (if j <= i then l[j] == before[j]
                else if j == i + 1 then l[j] == temp else l[j] == before[j - 1] && (j == i + 2 ==> l[j] == before[i + 1]))
            && ShapeAt(l, r, j) ==
               (if j < i then ShapeAt(before, regs, j)
                else if j == i then ShapeAt(before, regs, i).(next := temp, size := pages)
                else if j == i + 1 then
                  Shape(ShapeAt(before, regs, i).next, before[i], regs[i].first + pages, regs[i].pages - pages, false)
                else if j == i + 2 then ShapeAt(before, regs, i + 1).(prev := temp)
                else ShapeAt(before, regs, j - 1))
  {
  }

  lemma MergeShape(before: seq<PhysMemHeader>, regs: seq<Region>, i: nat, j: nat)
    requires i + 1 < |before| == |regs| && j < |before| - 1
    ensures var (l, r) := (before[..i + 1] + before[i + 2..], MergeAt(regs, i));
            && j < |l| == |r| && l[j] == before[if j <= i then j else j + 1]
            && ShapeAt(l, r, j) ==
               (if j < i then ShapeAt(before, regs, j)
                else if j == i then
                  ShapeAt(before, regs, i)
                  .(next := ShapeAt(before, regs, i + 1).next, size := regs[i].pages + regs[i + 1].pages)
                else if j == i + 1 then ShapeAt(before, regs, i + 2).(prev := before[i])
                else ShapeAt(before, regs, j + 1))
  {
  }

  lemma InsertDiffer(before: seq<PhysMemHeader>, temp: PhysMemHeader, i: nat)
    requires i < |before| && temp !in before && AllDiffer(before)
    ensures var l := before[..i + 1] + [temp] + before[i + 1..];
            |l| == |before| + 1 && NodeAt(l, 0) == NodeAt(before, 0) && AllDiffer(l)
  {
    var l := before[..i + 1] + [temp] + before[i + 1..];
    assert forall j :: 0 <= j < |l| ==> l[j] == if j <= i then before[j] else if j == i + 1 then temp else before[j - 1];
  }

  lemma RemoveDiffer(before: seq<PhysMemHeader>, i: nat)
    requires i + 1 < |before| && AllDiffer(before)
    ensures var l := before[..i + 1] + before[i + 2..];
            |l| == |before| - 1 && NodeAt(l, 0) == NodeAt(before, 0) && AllDiffer(l)
  {
    var l := before[..i + 1] + before[i + 2..];
    assert forall j :: 0 <= j < |l| ==> l[j] == before[if j <= i then j else j + 1];
  }

  ghost function Maybe(h: PhysMemHeader?): set<PhysMemHeader> { if h == null then {} else {h} }

  ghost function Elements<T>(s: seq<T>): set<T> { set i | 0 <= i < |s| :: s[i] }

  lemma {:induction false} ElementsSize<T>(s: seq<T>)
    ensures |Elements(s)| <= |s|
    ensures (forall i, j :: 0 <= i < j < |s| ==> s[i] != s[j]) ==> |Elements(s)| == |s|
  {
    if s != [] {
      var t := s[..|s| - 1];
      ElementsSize(t);
      assert Elements(s) == Elements(t) + {s[|s| - 1]};
    }
  }

  /** All the headers in some chunks. */
  ghost function HeadersOf(chunks: seq<PhysMemHeaderList>): set<PhysMemHeader> {
    if chunks == [] then {} else HeadersOf(chunks[..|chunks| - 1]) + Elements(chunks[|chunks| - 1].headers)
  }

  lemma AppendHeaders(chunks: seq<PhysMemHeaderList>, c: PhysMemHeaderList)
    ensures HeadersOf(chunks + [c]) == HeadersOf(chunks) + Elements(c.headers)
  {
    assert (chunks + [c])[..|chunks|] == chunks;
  }

  lemma {:induction false} ChunkInHeaders(chunks: seq<PhysMemHeaderList>, k: nat)
    requires k < |chunks|
    ensures Elements(chunks[k].headers) <= HeadersOf(chunks)
  {
    if k < |chunks| - 1 {
      ChunkInHeaders(chunks[..|chunks| - 1], k);
    }
  }

  /** All the headers of the chunks from the `first`th to before the `k`th are in the list. */
  ghost predicate Taken(chunks: seq<PhysMemHeaderList>, list: seq<PhysMemHeader>, first: nat, k: nat)
    requires first <= k <= |chunks|
  {
    HeadersOf(chunks[first..k]) <= Elements(list)
  }

  lemma TakenNone(chunks: seq<PhysMemHeaderList>, list: seq<PhysMemHeader>, first: nat)
    requires first <= |chunks|
    ensures Taken(chunks, list, first, first)
  {
  }

  lemma NotTaken(chunks: seq<PhysMemHeaderList>, list: seq<PhysMemHeader>, k: nat)
    requires k + 1 == |chunks| && exists h :: h in Elements(chunks[k].headers) && h !in list
    ensures !Taken(chunks, list, k, |chunks|)
  {
    assert chunks[k..|chunks|] == [] + [chunks[k]];
    AppendHeaders([], chunks[k]);
  }

  lemma TakenGrows(chunks: seq<PhysMemHeaderList>, list: seq<PhysMemHeader>, first: nat, k: nat)
    requires first <= k < |chunks| && Taken(chunks, list, first, k) && Elements(chunks[k].headers) <= Elements(list)
    ensures Taken(chunks, list, first, k + 1)
  {
    assert chunks[first..k + 1] == chunks[first..k] + [chunks[k]];
    AppendHeaders(chunks[first..k], chunks[k]);
  }

  /** Whether mapping a chunk of headers would succeed, and the address space afterwards. */
  ghost function ChunkMapping(s: State, m: PagingModel.VMap, chunkBytes: nat): (bool, PagingModel.VMap) {
    var j := FirstFit(s.regions, 0);
    if j == |s.regions| then (false, m)
    else
      var (r, _, m') := PagingModel.MapRangeResult(m, s.regions[j].first * PAGE, chunkBytes);
      (r.MapSuccess?, m')
  }

  /** The address space after `get_new_header`. */
  ghost function ChunkUpdate(s: State, m: PagingModel.VMap, chunkBytes: nat): PagingModel.VMap {
    if NeedsChunk(s) then ChunkMapping(s, m, chunkBytes).1 else m
  }

  /** The address space after `split_header_at_len`. */
  ghost function SplitMap(s: State, m: PagingModel.VMap, i: nat, pages: nat, chunkBytes: nat): PagingModel.VMap
    requires i < |s.regions|
  {
    if s.regions[i].pages == pages then m else ChunkUpdate(s, m, chunkBytes)
  }

  lemma SubsetSize<T>(a: set<T>, b: set<T>)
    requires a <= b
    ensures |a| <= |b|
  {
    assert b == a + (b - a);
  }

  lemma ChunkMappingIs(s: State, m: PagingModel.VMap, chunkBytes: nat, perChunk: nat)
    ensures var j, (ok, m') := FirstFit(s.regions, 0), ChunkMapping(s, m, chunkBytes);
            if j == |s.regions| then !ok && m' == m && Grow(s, perChunk, ok).0 == s
            else
              && (var (r, _, n) := PagingModel.MapRangeResult(m, s.regions[j].first * PAGE, chunkBytes);
                  m' == n && (r == PagingModel.MapSuccess <==> ok))
              && Grow(s, perChunk, ok).0 == (if ok then State(Use(s.regions, j, true), s.headers + perChunk) else s)
              && Use(Use(s.regions, j, true), j, false) == s.regions
  {
  }

  /** A chunk of headers is mapped where it was claimed: its bytes are those from the start of the first
      free region, which is used from then on, and nothing that was mapped changes. */
  lemma ChunkIsMapped(s: State, m: PagingModel.VMap, chunkBytes: nat, perChunk: nat)
    requires Sound(s.regions) && PagingModel.Below(m) && 0 < chunkBytes <= PAGE
    requires ChunkMapping(s, m, chunkBytes).0
    ensures var (j, m') := (FirstFit(s.regions, 0), ChunkMapping(s, m, chunkBytes).1);
            && j < |s.regions| && !s.regions[j].inUse
            && Grow(s, perChunk, true) == (State(Use(s.regions, j, true), s.headers + perChunk), true)
            && PagingModel.Extends(m, m')
            && exists virt :: virt > 0 && PagingModel.BytesMap(m', virt, s.regions[j].first * 4096, chunkBytes)
  {
    hide PagingModel.MapRangeResult, PagingModel.Extends, PagingModel.BytesMap;
    var j := FirstFit(s.regions, 0);
    var phys: nat := s.regions[j].first * PAGE;
    assert s.regions[j].End() < PAGES;
    PagingModel.MapRangeTranslates(m, phys, chunkBytes);
    PagingModel.MapSuccessIs(m, phys, chunkBytes);
    assert phys % PAGE == 0;
    assert PagingModel.MapRangeResult(m, phys, chunkBytes).1 > 0;
  }

  class Manager {
    const perChunk: nat        // headers in a chunk
    const chunkBytes: nat      // sizeof(PhysMemHeaderList)
    var firstHeader: PhysMemHeader?
    const firstChunk: PhysMemHeaderList
    var headersInUse: nat
    var headersAllocated: nat
    ghost var list: seq<PhysMemHeader>
    ghost var regions: seq<Region>
    ghost var chunks: seq<PhysMemHeaderList>
    ghost var pool: set<PhysMemHeader>

    ghost predicate Node(i: nat)
      requires i < |list| == |regions|
      reads this`list, this`regions, list`next, list`prev, list`memory, list`size, list`inUse
    {
      && list[i].next == NodeAt(list, i + 1) && list[i].prev == NodeAt(list, i - 1)
      && list[i].memory == regions[i].first && list[i].size == regions[i].pages && list[i].inUse == regions[i].inUse
    }

    /** The headers form a doubly linked list of exactly the regions. */
    ghost predicate Links()
      reads this`list, this`regions, this`firstHeader, list`next, list`prev, list`memory, list`size, list`inUse
    {
      && |list| == |regions|
      && firstHeader == NodeAt(list, 0)
      && (forall i :: 0 <= i < |list| ==> Node(i))
      && AllDiffer(list)
    }

    ghost predicate ChunkNode(k: nat)
      requires k < |chunks|
      reads this`chunks, chunks`next
    {
      chunks[k].next == ChunkAt(chunks, k + 1)
    }

    ghost predicate Chained()
      reads this`chunks, this`pool, chunks`next
    {
      && pool == HeadersOf(chunks)
      && chunks != [] && firstChunk == chunks[0]
      && (forall k :: 0 <= k < |chunks| ==> ChunkNode(k))
      && ChunksDiffer(chunks)
    }

    /** Of the headers in the chunks, those in the list, and in `extra`, are flagged as used. */
    ghost predicate Flagged(extra: set<PhysMemHeader>)
      reads this`list, this`pool, pool`headerInUse
    {
      && (forall h :: h in list ==> h in pool)
      && (forall h :: h in pool ==> (h.headerInUse <==> h in list || h in extra))
    }

    /** `headersAllocated` counts the headers in the chunks. */
    ghost predicate Pool(extra: set<PhysMemHeader>)
      reads this`list, this`chunks, this`pool, this`headersAllocated, chunks`next, pool`headerInUse
    {
      && 1 <= perChunk && 1 <= chunkBytes <= PAGE
      && Chained() && Flagged(extra) && |pool| == headersAllocated
    }

    ghost predicate Consistent()
      reads this, list, chunks, pool
    {
      Links() && Pool({}) && headersInUse == |list| < headersAllocated && Sound(regions)
    }

    ghost predicate Valid()
      reads this, list, chunks, pool
    {
      Consistent() && Coalesced(regions)
    }

    ghost function Current(): State
      reads this`regions, this`headersAllocated
    {
      State(regions, headersAllocated)
    }

    /** The manager after boot, over free regions that are already disjoint; they fit in the first
        chunk with a header to spare. */
    constructor Boot(perChunk: nat, chunkBytes: nat, boot: seq<Region>)
      requires 1 <= chunkBytes <= PAGE && 0 < |boot| < perChunk
      requires Sound(boot) && Coalesced(boot) && forall i :: 0 <= i < |boot| ==> !boot[i].inUse
      ensures Valid() && Current() == State(boot, perChunk)
      ensures this.perChunk == perChunk && this.chunkBytes == chunkBytes
      ensures fresh(pool) && fresh(Elements(chunks))
    {
      this.perChunk, this.chunkBytes := perChunk, chunkBytes;
      var chunk := new PhysMemHeaderList(perChunk);
      firstChunk, firstHeader := chunk, chunk.headers[0];
      headersInUse, headersAllocated := 0, perChunk;
      list, regions, chunks, pool := [], [], [chunk], Elements(chunk.headers);
      new;
      ElementsSize(chunk.headers);
      AppendHeaders([], chunk);
      assert [] + [chunk] == [chunk];
      hide Booting, Valid, Consistent, Links, Pool, Chained, Flagged, HeadersOf, Elements, Sound, Coalesced;
      for i := 0 to |boot|
        invariant regions == boot[..i] && |firstChunk.headers| == perChunk
        invariant firstHeader == firstChunk.headers[0] && fresh(firstChunk) && fresh(pool)
        invariant chunks == [firstChunk] && pool == Elements(firstChunk.headers) == HeadersOf(chunks)
        invariant firstChunk.next == null && |pool| == perChunk == headersAllocated
        invariant Booting()
      {
        AddRegion(boot[i]);
      }
      assert regions == boot;
      Booted();
    }

    lemma Booted()
      requires Booting() && 0 < |regions| < perChunk == |firstChunk.headers| && 1 <= chunkBytes <= PAGE
      requires Sound(regions) && Coalesced(regions) && firstHeader == firstChunk.headers[0]
      requires chunks == [firstChunk] && pool == Elements(firstChunk.headers) == HeadersOf(chunks)
      requires firstChunk.next == null && |pool| == perChunk == headersAllocated
      ensures Valid()
    {
      hide Sound, Coalesced, HeadersOf, NodeAt;
      NodeAtIs(list, 0);
      LinksIs();
      ChunkAtIs(chunks, 1);
      assert ChunkNode(0);
      assert Flagged({});
      assert Links() && Chained();
    }

    /** The state of the loop that copies the regions into the first headers of the first chunk. */
    ghost predicate Booting()
      reads this, firstChunk.headers
    {
      && headersInUse == |list| == |regions| <= |firstChunk.headers| && list == firstChunk.headers[..|list|]
      && AllDiffer(firstChunk.headers)
      && (forall j :: 0 <= j < |list| ==> Node(j))
      && (forall j :: 0 <= j < |firstChunk.headers| ==> firstChunk.headers[j].headerInUse == (j < |list|))
      && (forall j :: |list| <= j < |firstChunk.headers| ==>
        firstChunk.headers[j].next == null && firstChunk.headers[j].prev == null)
    }

    method AddRegion(r: Region)
      requires Booting() && |list| < |firstChunk.headers| && !r.inUse
      modifies this`list, this`regions, this`headersInUse, firstChunk.headers
      ensures Booting() && regions == old(regions) + [r]
    {
      ghost var before, regs := list, regions;
      NodeShapes();
      hide Node, ShapeAt;
      var i := headersInUse;
      var h := firstChunk.headers[i];
      if i != 0 {
        h.prev := firstChunk.headers[i - 1];
        firstChunk.headers[i - 1].next := h;
      }
      h.memory, h.size, h.inUse, h.headerInUse := r.first, r.pages, false, true;
      headersInUse := headersInUse + 1;
      list, regions := list + [h], regions + [r];
      assert list == firstChunk.headers[..i + 1];
      forall j | 0 <= j < |list| ensures Node(j) {
        AppendShape(before, regs, h, r, j);
        NodeIs(j);
      }
    }

    lemma NodeShapes()
      requires |list| == |regions| && forall k :: 0 <= k < |list| ==> Node(k)
      ensures forall k {:trigger ShapeAt(list, regions, k)} :: 0 <= k < |list| ==>
                var f := ShapeAt(list, regions, k);
                && list[k].next == f.next && list[k].prev == f.prev && list[k].memory == f.memory
                && list[k].size == f.size && list[k].inUse == f.inUse
    {
      forall k | 0 <= k < |list|
        ensures var f := ShapeAt(list, regions, k);
                && list[k].next == f.next && list[k].prev == f.prev && list[k].memory == f.memory
                && list[k].size == f.size && list[k].inUse == f.inUse
      {
        assert Node(k);
      }
    }

    /** Set the flag of the header at `i`. */
    method SetUse(h: PhysMemHeader, ghost i: nat, inUse: bool)
      requires Links() && i < |list| && h == list[i]
      modifies this`regions, h`inUse
      ensures Links() && regions == Use(old(regions), i, inUse)
    {
      h.inUse := inUse;
      regions := Use(regions, i, inUse);
      forall j | 0 <= j < |list| ensures Node(j) {
        assert old(Node(j));
      }
    }

    method FindFreePages(pages: nat) returns (h: PhysMemHeader?)
      requires Consistent()
      ensures h == NodeAt(list, FirstFit(regions, pages))
    {
      h := firstHeader;
      ghost var i := 0;
      while h != null
        invariant i <= |list| && h == NodeAt(list, i)
        invariant forall j :: 0 <= j < i ==> regions[j].inUse || regions[j].pages < pages
        decreases |list| - i
      {
        assert Node(i);
        if !h.inUse && h.size >= pages {
          return;
        }
        h, i := h.next, i + 1;
      }
    }

    /** Claim the first free region, all of it, and map it; if that fails, give it back. */
    method MapChunk(vm: Paging.AddressSpace) returns (ok: bool)
      requires Consistent() && vm.Valid()
      modifies this`regions, pool`inUse, vm`frames, vm.searchable
      ensures vm.Valid() && Links()
      ensures (ok, vm.Map()) == ChunkMapping(old(Current()), old(vm.Map()), chunkBytes)
      ensures State(regions, headersAllocated + (if ok then perChunk else 0)) == Grow(old(Current()), perChunk, ok).0
    {
      hide *;
      ghost var s, m, j := Current(), vm.Map(), FirstFit(regions, 0);
      ChunkMappingIs(s, m, chunkBytes, perChunk);
      AtNode(j);
      var header := FindFreePages(0);
      if header == null {
        return false;
      }
      var phys := header.memory * PAGE;
      SetUse(header, j, true);
      var r, virt := vm.MapRange(phys, chunkBytes);
      if r != PagingModel.MapSuccess {
        SetUse(header, j, false);
        return false;
      }
      return true;
    }

    lemma AtNode(i: nat)
      requires Consistent() && i <= |regions|
      ensures Links() && |list| == |regions| && Current() == State(regions, headersAllocated) && chunkBytes < SPACE
      ensures i == |list| <==> NodeAt(list, i) == null
      ensures i < |list| ==>
                && NodeAt(list, i) == list[i] && list[i] in pool
                && list[i].memory == regions[i].first && list[i].memory * PAGE < SPACE
                && list[i].size == regions[i].pages && list[i].inUse == regions[i].inUse
    {
      if i < |list| {
        assert Node(i) && regions[i].End() < PAGES;
      }
    }

    method LastChunk() returns (chunk: PhysMemHeaderList)
      requires Chained()
      ensures chunk == chunks[|chunks| - 1]
    {
      chunk := firstChunk;
      ghost var k := 0;
      while chunk.next != null
        invariant k < |chunks| && chunk == chunks[k]
        decreases |chunks| - k
      {
        AtChunk(k);
        AtChunk(k + 1);
        chunk, k := chunk.next, k + 1;
      }
      AtChunk(k);
    }

    /** Fill in a new chunk of unused headers and put it behind the last one. */
    method AppendChunk(last: PhysMemHeaderList) returns (chunk: PhysMemHeaderList)
      requires Pool({}) && last == chunks[|chunks| - 1]
      modifies last`next, this`chunks, this`pool, this`headersAllocated
      ensures Pool({}) && fresh(chunk) && chunks == old(chunks) + [chunk] &&
          headersAllocated == old(headersAllocated) + perChunk
      ensures old(pool) <= pool && fresh(pool - old(pool))
      ensures exists h :: h in Elements(chunk.headers) && h !in old(pool)
    {
      PoolParts();
      chunk := new PhysMemHeaderList(perChunk);
      assert chunk.headers[0] in Elements(chunk.headers);
      headersAllocated := headersAllocated + perChunk;
      hide Flagged, Chained;
      LinkChunk(last, chunk);
    }

    /** chunk->next = the new chunk. */
    method LinkChunk(last: PhysMemHeaderList, chunk: PhysMemHeaderList)
      requires Chained() && Flagged({}) && last == chunks[|chunks| - 1] && chunk !in chunks && chunk.next == null
      requires forall h :: h in chunk.headers ==> h !in pool && !h.headerInUse
      requires forall j, k :: 0 <= j < k < |chunk.headers| ==> chunk.headers[j] != chunk.headers[k]
      modifies last`next, this`chunks, this`pool
      ensures Chained() && Flagged({}) && chunks == old(chunks) + [chunk]
      ensures pool == old(pool) + Elements(chunk.headers) && |pool| == |old(pool)| + |chunk.headers|
    {
      hide *;
      ghost var before, n := pool, |chunks|;
      ChainedParts();
      FlagFacts();
      NewHeaders(chunk.headers);
      AppendHeaders(chunks, chunk);
      AppendDiffers(chunks, chunk);
      AtChunk(n - 1);
      AllSuccessors();
      last.next := chunk;
      chunks, pool := chunks + [chunk], pool + Elements(chunk.headers);
      forall k | 0 <= k < |chunks| ensures ChunkNode(k) {
        ChunkAtIs(chunks, k + 1);
        if k < n - 1 {
          ChunkAtIs(old(chunks), k + 1);
          ChunkDiffers(old(chunks), k, n - 1);
        }
        ChunkNodeIs(k);
      }
      ChainedIs();
      FlagsExtended(before, Elements(chunk.headers));
    }

    lemma ChainedParts()
      requires Chained()
      ensures pool == HeadersOf(chunks) && chunks != [] && firstChunk == chunks[0] && ChunksDiffer(chunks)
    {
    }

    /** Every chunk points to the one behind it. */
    lemma AllSuccessors()
      requires Chained()
      ensures forall k {:trigger ChunkAt(chunks, k + 1)} :: 0 <= k < |chunks| ==> chunks[k].next == ChunkAt(chunks, k + 1)
    {
      forall k | 0 <= k < |chunks| ensures chunks[k].next == ChunkAt(chunks, k + 1) {
        AtChunk(k);
      }
    }

    lemma ChunkNodeIs(k: nat)
      requires k < |chunks| && chunks[k].next == ChunkAt(chunks, k + 1)
      ensures ChunkNode(k)
    {
    }

    lemma ChainedIs()
      requires pool == HeadersOf(chunks) && chunks != [] && firstChunk == chunks[0] && ChunksDiffer(chunks)
      requires forall k :: 0 <= k < |chunks| ==> ChunkNode(k)
      ensures Chained()
    {
    }

    lemma FlagFacts()
      requires Flagged({})
      ensures forall h :: h in list ==> h in pool
      ensures forall h :: h in pool ==> (h.headerInUse <==> h in list)
    {
    }

    lemma NewHeaders(headers: seq<PhysMemHeader>)
      requires forall h :: h in headers ==> h !in pool && !h.headerInUse
      requires forall j, k :: 0 <= j < k < |headers| ==> headers[j] != headers[k]
      ensures |pool + Elements(headers)| == |pool| + |headers|
      ensures forall h :: h in Elements(headers) ==> !h.headerInUse && h !in pool
    {
      ElementsSize(headers);
      assert pool !! Elements(headers);
    }

    lemma FlagsExtended(before: set<PhysMemHeader>, more: set<PhysMemHeader>)
      requires pool == before + more && forall h :: h in list ==> h in before
      requires forall h :: h in before ==> (h.headerInUse <==> h in list)
      requires forall h :: h in more ==> !h.headerInUse && h !in before
      ensures Flagged({})
    {
    }

    /** The first header that is not in use, in the chunks from the `first`th one on. */
    method FindUnused(from: PhysMemHeaderList?, ghost first: nat) returns (h: PhysMemHeader?)
      requires Chained() && Flagged({}) && first <= |chunks| && from == ChunkAt(chunks, first)
      modifies pool`headerInUse
      ensures h != null ==> h in pool && h !in list && Flagged({h})
      ensures h == null ==> Flagged({}) && Taken(chunks, list, first, |chunks|)
    {
      hide *;
      var chunk := from;
      ghost var k := first;
      TakenNone(chunks, list, first);
      while chunk != null
        invariant first <= k <= |chunks| && chunk == ChunkAt(chunks, k) && Flagged({}) && Chained()
        invariant Taken(chunks, list, first, k)
        decreases |chunks| - k
      {
        AtChunk(k);
        h := TakeUnused(chunk, k);
        if h != null {
          return;
        }
        TakenGrows(chunks, list, first, k);
        chunk, k := chunk.next, k + 1;
      }
      AtChunk(k);
      return null;
    }

    lemma AtChunk(k: nat)
      requires Chained() && k <= |chunks|
      ensures k == |chunks| <==> ChunkAt(chunks, k) == null
      ensures k < |chunks| ==> ChunkAt(chunks, k) == chunks[k] && chunks[k].next == ChunkAt(chunks, k + 1)
    {
      assert k < |chunks| ==> ChunkNode(k);
    }

    method TakeUnused(chunk: PhysMemHeaderList, ghost k: nat) returns (h: PhysMemHeader?)
      requires Chained() && Flagged({}) && k < |chunks| && chunk == chunks[k]
      modifies pool`headerInUse
      ensures h != null ==> h in pool && h !in list && Flagged({h})
      ensures h == null ==> Flagged({}) && Elements(chunk.headers) <= Elements(list)
    {
      ChunkInHeaders(chunks, k);
      for j := 0 to |chunk.headers|
        invariant forall x :: x in chunk.headers[..j] ==> x in list
        invariant Flagged({})
      {
        h := chunk.headers[j];
        assert h in Elements(chunk.headers);
        if !h.headerInUse {
          h.headerInUse := true;
          return h;
        }
      }
      assert chunk.headers[..|chunk.headers|] == chunk.headers;
      return null;
    }

    /** `get_header_chunk`, and putting the chunk behind the last one. */
    method GetHeaderChunk(vm: Paging.AddressSpace) returns (chunk: PhysMemHeaderList?)
      requires Consistent() && vm.Valid()
      modifies this`headersAllocated, this`regions, this`chunks, this`pool, pool`inUse, chunks`next
      modifies vm`frames, vm.searchable
      ensures vm.Valid() && Links() && Pool({})
      ensures (chunk != null, vm.Map()) == ChunkMapping(old(Current()), old(vm.Map()), chunkBytes)
      ensures Current() == Grow(old(Current()), perChunk, chunk != null).0
      ensures old(pool) <= pool && fresh(pool - old(pool))
      ensures if chunk == null then chunks == old(chunks) else fresh(chunk) && chunks == old(chunks) + [chunk]
      ensures chunk != null ==> exists h :: h in Elements(chunk.headers) && h !in list
    {
      hide *;
      ConsistentParts();
      var last := LastChunk();
      var ok := MapChunk(vm);
      CurrentIs();
      if !ok {
        return null;
      }
      chunk := AppendChunk(last);
      CurrentIs();
    }

    /** The chunk that `get_new_header` searches from: the first, or a new one if only one header is
        left; it or one behind it has a header that is not in use. */
    method ChunkToSearch(vm: Paging.AddressSpace) returns (chunk: PhysMemHeaderList?, ghost k: nat)
      requires Consistent() && vm.Valid()
      modifies this`headersAllocated, this`regions, this`chunks, this`pool, pool`inUse, chunks`next
      modifies vm`frames, vm.searchable
      ensures vm.Valid() && Links() && Pool({})
      ensures vm.Map() == ChunkUpdate(old(Current()), old(vm.Map()), chunkBytes)
      ensures (Current(), chunk != null)
              == NewHeader(old(Current()), perChunk, ChunkMapping(old(Current()), old(vm.Map()), chunkBytes).0)
      ensures old(pool) <= pool && fresh(pool - old(pool))
      ensures chunks == old(chunks)
              || (|chunks| == |old(chunks)| + 1 && chunks[..|old(chunks)|] == old(chunks) && fresh(chunks[|old(chunks)|]))
      ensures chunk != null ==> k < |chunks| && chunk == chunks[k] && !Taken(chunks, list, k, |chunks|)
    {
      chunk, k := firstChunk, 0;
      if headersInUse + 1 >= headersAllocated {
        chunk := GetHeaderChunk(vm);
        if chunk != null {
          k := |chunks| - 1;
          NotTaken(chunks, list, k);
        }
      } else {
        NotAllTaken();
      }
    }

    /** A header that is not in use, from a new chunk if only one is left. */
    method GetNewHeader(vm: Paging.AddressSpace) returns (h: PhysMemHeader?)
      requires Consistent() && vm.Valid()
      modifies this`headersAllocated, this`regions, this`chunks, this`pool, pool`inUse, chunks`next
      modifies pool`headerInUse, vm`frames, vm.searchable
      ensures vm.Valid() && Links()
      ensures vm.Map() == ChunkUpdate(old(Current()), old(vm.Map()), chunkBytes)
      ensures (Current(), h != null)
              == NewHeader(old(Current()), perChunk, ChunkMapping(old(Current()), old(vm.Map()), chunkBytes).0)
      ensures h == null ==> Pool({})
      ensures h != null ==> h in pool && h !in list && Pool({h})
      ensures old(pool) <= pool && fresh(pool - old(pool))
      ensures chunks == old(chunks)
              || (|chunks| == |old(chunks)| + 1 && chunks[..|old(chunks)|] == old(chunks) && fresh(chunks[|old(chunks)|]))
    {
      hide *;
      var chunk;
      ghost var k;
      h := null;
      chunk, k := ChunkToSearch(vm);
      if chunk != null {
        PoolParts();
        AtChunk(k);
        h := FindUnused(chunk, k);
        PoolIs({h});
      }
    }

    lemma CurrentIs()
      ensures Current() == State(regions, headersAllocated)
    {
    }

    lemma ConsistentParts()
      requires Consistent()
      ensures Links() && Pool({}) && Chained() && Flagged({}) && Current() == State(regions, headersAllocated)
      ensures Sound(regions) && headersInUse == |list| == |regions| < headersAllocated && 1 <= perChunk &&
          1 <= chunkBytes <= PAGE
    {
    }

    lemma PoolParts()
      requires Pool({})
      ensures Chained() && Flagged({}) && |pool| == headersAllocated && 1 <= perChunk && 1 <= chunkBytes <= PAGE
    {
    }

    lemma PoolIs(extra: set<PhysMemHeader>)
      requires 1 <= perChunk && 1 <= chunkBytes <= PAGE
      requires Chained() && Flagged(extra) && |pool| == headersAllocated
      ensures Pool(extra)
    {
    }

    /** By counting, some header of the chunks is not in the list. */
    lemma NotAllTaken()
      requires Consistent()
      ensures !Taken(chunks, list, 0, |chunks|)
    {
      assert chunks[0..|chunks|] == chunks;
      if Taken(chunks, list, 0, |chunks|) {
        SubsetSize(pool, Elements(list));
        ElementsSize(list);
      }
    }

    /** Initialize the header `temp` for what is left of the region of `header` after `pages` pages,
        and put it behind `header` in the chain. */
    method ChainRest(header: PhysMemHeader, temp: PhysMemHeader, pages: nat)
      requires temp != header && temp != header.next && header.next != header && pages <= header.size
      modifies temp`next, temp`prev, temp`memory, temp`size, temp`inUse, header`next, header`size,
        Maybe(header.next)`prev
      ensures temp.next == old(header.next) && temp.prev == header && !temp.inUse
      ensures temp.memory == header.memory + pages && temp.size == old(header.size) - pages
      ensures header.next == temp && header.size == pages
      ensures old(header.next) != null ==> old(header.next).prev == temp
    {
      temp.next, temp.prev := header.next, header;
      temp.memory, temp.size, temp.inUse := header.memory + pages, header.size - pages, false;
      if header.next != null {
        header.next.prev := temp;
      }
      header.next := temp;
      header.size := header.size - temp.size;
    }

    /** The fields of the headers in the list. */
    lemma Shapes()
      requires Links()
      ensures |list| == |regions| && firstHeader == NodeAt(list, 0) && AllDiffer(list)
      ensures forall k {:trigger ShapeAt(list, regions, k)} :: 0 <= k < |list| ==>
                var f := ShapeAt(list, regions, k);
                && list[k].next == f.next && list[k].prev == f.prev && list[k].memory == f.memory
                && list[k].size == f.size && list[k].inUse == f.inUse
    {
      NodeShapes();
    }

    lemma NodeIs(k: nat)
      requires k < |list| == |regions|
      requires var f := ShapeAt(list, regions, k);
               && list[k].next == f.next && list[k].prev == f.prev && list[k].memory == f.memory
               && list[k].size == f.size && list[k].inUse == f.inUse
      ensures Node(k)
    {
    }

    lemma LinksIs()
      requires |list| == |regions| && firstHeader == NodeAt(list, 0) && AllDiffer(list)
      requires forall i :: 0 <= i < |list| ==> Node(i)
      ensures Links()
    {
    }

    method InsertRest(header: PhysMemHeader, temp: PhysMemHeader, pages: nat, ghost i: nat)
      requires Links() && temp !in list && i < |list| && header == list[i] && pages <= regions[i].pages
      modifies this`list, this`regions, this`headersInUse
      modifies temp`next, temp`prev, temp`memory, temp`size, temp`inUse, list`next, list`prev, list`size
      ensures Links() && regions == Cut(old(regions), i, pages) && headersInUse == old(headersInUse) + 1
      ensures list == old(list)[..i + 1] + [temp] + old(list)[i + 1..]
    {
      hide *;
      ghost var before, regs := list, regions;
      Shapes();
      ShapeIs(before, regs, i);
      MaybeIs(header.next);
      CutSize(regs, i, pages);
      ChainRest(header, temp, pages);
      headersInUse := headersInUse + 1;
      list := list[..i + 1] + [temp] + list[i + 1..];
      regions := Cut(regions, i, pages);
      InsertDiffer(before, temp, i);
      forall j | 0 <= j < |list| ensures |list| == |regions| && Node(j) {
        InsertShape(before, regs, temp, i, pages, j);
        ghost var k := if j <= i then j else j - 1;
        Differ(before, k, i);
        NodeIs(j);
      }
      LinksIs();
    }

    method SplitHeaderAtLen(header: PhysMemHeader, pages: nat, vm: Paging.AddressSpace, ghost i: nat)
      requires Consistent() && vm.Valid()
      requires i < |list| == |regions| && header == list[i] && regions[i].inUse && pages <= regions[i].pages
      modifies this, chunks`next, pool, vm`frames, vm.searchable
      ensures Consistent() && vm.Valid()
      ensures Current()
              == Split(old(Current()), i, pages, perChunk, ChunkMapping(old(Current()), old(vm.Map()), chunkBytes).0)
      ensures vm.Map() == SplitMap(old(Current()), old(vm.Map()), i, pages, chunkBytes)
      ensures i < |list| && list[i] == header
      ensures old(pool) <= pool && fresh(pool - old(pool))
      ensures chunks == old(chunks)
              || (|chunks| == |old(chunks)| + 1 && chunks[..|old(chunks)|] == old(chunks) && fresh(chunks[|old(chunks)|]))
    {
      hide *;
      ghost var s, m := Current(), vm.Map();
      ghost var mapped := ChunkMapping(s, m, chunkBytes).0;
      ConsistentParts();
      AtNode(i);
      SplitCases(s, m, i, pages, perChunk, mapped, chunkBytes);
      if header.size == pages {
        return;
      }
      var temp := GetNewHeader(vm);
      CurrentIs();
      if temp == null {
        PoolParts();
        ConsistentIs();
        return;
      }
      UseRest(header, temp, pages, i);
      CurrentIs();
    }

    method UseRest(header: PhysMemHeader, temp: PhysMemHeader, pages: nat, ghost i: nat)
      requires Links() && Pool({temp}) && temp in pool && temp !in list && headersInUse == |list|
      requires i < |list| && i < |regions| && header == list[i] && pages <= regions[i].pages
      requires var cut := Cut(regions, i, pages); Sound(cut) && |cut| < headersAllocated
      requires 1 <= perChunk && 1 <= chunkBytes <= PAGE
      modifies this`list, this`regions, this`headersInUse
      modifies temp`next, temp`prev, temp`memory, temp`size, temp`inUse, temp`headerInUse, list`next, list`prev,
        list`size
      ensures Consistent() && regions == Cut(old(regions), i, pages) && i < |list| && list[i] == header
    {
      hide *;
      ghost var before := list;
      FlagsAre(temp);
      InsertRest(header, temp, pages, i);
      temp.headerInUse := true;
      FlagsMoved(before, temp, i);
      ConsistentIs();
    }

    lemma FlagsAre(temp: PhysMemHeader)
      requires Pool({temp}) && temp in pool && temp !in list
      ensures Chained() && |pool| == headersAllocated
      ensures forall h :: h in pool ==> (h.headerInUse <==> h in list || h == temp)
      ensures forall h :: h in list ==> h in pool
    {
    }

    lemma FlagsMoved(before: seq<PhysMemHeader>, temp: PhysMemHeader, i: nat)
      requires i < |before| && list == before[..i + 1] + [temp] + before[i + 1..] && temp in pool
      requires forall h :: h in pool ==> (h.headerInUse <==> h in before || h == temp)
      requires forall h :: h in before ==> h in pool
      ensures Flagged({}) && |list| == |before| + 1
    {
      assert forall h :: h in list <==> h in before || h == temp;
    }

    lemma ConsistentIs()
      requires Links() && Chained() && Flagged({}) && |pool| == headersAllocated
      requires 1 <= perChunk && 1 <= chunkBytes <= PAGE
      requires headersInUse == |list| && |regions| < headersAllocated && Sound(regions)
      ensures Consistent()
    {
    }

    /** Reserve `len` bytes; `page` is the first page of the block. */
    method GetMemArea(len: nat, vm: Paging.AddressSpace) returns (r: PmmResult, page: nat)
      requires Valid() && vm.Valid()
      modifies this, chunks`next, pool, vm`frames, vm.searchable
      ensures Valid() && vm.Valid()
      ensures (Current(), r, page)
              == Get(old(Current()), len, perChunk, GetMapping(old(Current()), old(vm.Map()), len, chunkBytes).0)
      ensures vm.Map() == GetMapping(old(Current()), old(vm.Map()), len, chunkBytes).1
      ensures old(pool) <= pool && fresh(pool - old(pool))
      ensures chunks == old(chunks)
              || (|chunks| == |old(chunks)| + 1 && chunks[..|old(chunks)|] == old(chunks) && fresh(chunks[|old(chunks)|]))
    {
      hide *;
      var pages := RoundUp(len);
      ghost var s, m, i := Current(), vm.Map(), FirstFit(regions, pages);
      ValidParts();
      AtNode(i);
      GetCases(s, m, len, perChunk, chunkBytes);
      var header := FindFreePages(pages);
      if header == null {
        return PmmNoMem, 0;
      }
      Claim(header, i);
      ConsistentParts();
      SplitHeaderAtLen(header, pages, vm, i);
      ConsistentParts();
      AtNode(i);
      ValidIs();
      r, page := PmmSuccess, header.memory;
    }

    /** `internal_claim_mem_area`. */
    method Claim(header: PhysMemHeader, ghost i: nat)
      requires Consistent() && i < |list| == |regions| && header == list[i] && !regions[i].inUse
      modifies this`regions, header`inUse
      ensures Consistent() && regions == Use(old(regions), i, true)
    {
      ConsistentParts();
      UseSound(regions, i, true);
      hide *;
      SetUse(header, i, true);
      UseSize(old(regions), i, true);
      ConsistentIs();
    }

    lemma ValidParts()
      requires Valid()
      ensures Consistent() && Inv(Current()) && Current() == State(regions, headersAllocated) && 1 <= perChunk
    {
    }

    lemma ValidIs()
      requires Consistent() && Inv(Current())
      ensures Valid() && |list| == |regions|
    {
    }

    method FindHeaderForPage(addr: nat, len: nat) returns (h: PhysMemHeader?)
      requires Consistent()
      ensures var i := HeaderFor(regions, addr);
              h == if i == |list| || regions[i].inUse || regions[i].pages * PAGE < len then null else NodeAt(list, i)
    {
      h := firstHeader;
      ghost var i := 0;
      while h != null
        invariant i <= |list| && h == NodeAt(list, i) && i <= HeaderFor(regions, addr)
        decreases |list| - i
      {
        assert Node(i);
        if h.memory * PAGE <= addr && h.memory * PAGE + h.size * PAGE >= addr {
          assert HeaderFor(regions, addr) == i;
          if h.inUse || h.size * PAGE < len {
            return null;
          }
          return h;
        }
        h, i := h.next, i + 1;
      }
    }

    /** Reserve `len` bytes at an address; the header found starts at or below it. */
    method GetMemAreaAt(addr: nat, len: nat, vm: Paging.AddressSpace) returns (r: PmmResult)
      requires Valid() && vm.Valid()
      modifies this, chunks`next, pool, vm`frames, vm.searchable
      ensures Valid() && vm.Valid()
      ensures var s := old(Current());
              && (Current(), r)
                 == GetAt(s, addr, len, perChunk, GetAtMapping(s, old(vm.Map()), addr, len, chunkBytes).0)
              && vm.Map() == GetAtMapping(s, old(vm.Map()), addr, len, chunkBytes).1
      ensures old(pool) <= pool && fresh(pool - old(pool))
      ensures chunks == old(chunks)
              || (|chunks| == |old(chunks)| + 1 && chunks[..|old(chunks)|] == old(chunks) && fresh(chunks[|old(chunks)|]))
    {
      hide *;
      ghost var s, m, i := Current(), vm.Map(), HeaderFor(regions, addr);
      ValidParts();
      ConsistentParts();
      AtNode(i);
      GetAtCases(s, m, addr, len, perChunk, chunkBytes);
      var header := FindHeaderForPage(addr, len);
      if header == null {
        return PmmNoMem;
      }
      Claim(header, i);
      ConsistentParts();
      AtNode(i);
      if header.memory * PAGE > addr {
        assert false;  // there is nothing to remove from before the address
      }
      SplitHeaderAtLen(header, RoundUp(len), vm, i);
      ConsistentParts();
      ValidIs();
      r := PmmSuccess;
    }

    /** Take `gone`, the header behind `header`, out of the chain, and add its pages to `header`.  The
        first branch of `merge_adjacent_headers` is written from `header`, the second from `gone`. */
    method Unchain(header: PhysMemHeader, gone: PhysMemHeader, second: bool)
      requires gone == header.next && gone.prev == header && gone != header && gone.next != header && gone.next != gone
      modifies header`next, header`size, gone`headerInUse, Maybe(gone.next)`prev
      ensures header.next == gone.next && header.size == old(header.size) + gone.size && !gone.headerInUse
      ensures gone.next != null ==> gone.next.prev == header
    {
      if !second {
        header.next.headerInUse := false;
        header.size := header.size + header.next.size;
        if header.next.next != null {
          header.next.next.prev := header;
        }
        header.next := header.next.next;
      } else {
        gone.headerInUse := false;
        gone.prev.size := gone.prev.size + gone.size;
        gone.prev.next := gone.next;
        if gone.next != null {
          gone.next.prev := gone.prev;
        }
      }
    }

    /** The list after the header at `i` swallowed the one behind it. */
    method MergeHeaders(header: PhysMemHeader, gone: PhysMemHeader, ghost i: nat, second: bool)
      requires Links() && headersInUse > 0 && i + 1 < |list| && header == list[i] && gone == list[i + 1]
      modifies this`list, this`regions, this`headersInUse, list`next, list`prev, list`size, gone`headerInUse
      ensures Links() && headersInUse == old(headersInUse) - 1 && !gone.headerInUse
      ensures regions == MergeAt(old(regions), i) && list == old(list)[..i + 1] + old(list)[i + 2..]
    {
      hide *;
      ghost var before, regs := list, regions;
      Shapes();
      ShapeIs(before, regs, i);
      ShapeIs(before, regs, i + 1);
      Differ(before, i, i + 1);
      Differ(before, i, i + 2);
      Differ(before, i + 1, i + 2);
      MaybeIs(gone.next);
      MergeSize(regs, i);
      Unchain(header, gone, second);
      headersInUse := headersInUse - 1;
      list := list[..i + 1] + list[i + 2..];
      regions := MergeAt(regions, i);
      RemoveDiffer(before, i);
      forall j | 0 <= j < |list| ensures |list| == |regions| && Node(j) {
        MergeShape(before, regs, i, j);
        ghost var k := if j <= i then j else j + 1;
        Differ(before, k, i);
        Differ(before, k, i + 2);
        NodeIs(j);
      }
      LinksIs();
    }

    lemma FlagsRemoved(before: seq<PhysMemHeader>, gone: PhysMemHeader, i: nat)
      requires i + 1 < |before| && gone == before[i + 1] && list == before[..i + 1] + before[i + 2..]
      requires forall j, k :: 0 <= j < k < |before| ==> before[j] != before[k]
      requires forall h :: h in before ==> h in pool
      requires forall h :: h in pool ==> (h.headerInUse <==> h in before && h != gone)
      ensures Flagged({}) && |list| == |before| - 1
    {
      assert forall h :: h in list <==> h in before && h != gone;
    }

    lemma Flags()
      requires Flagged({}) && Links()
      ensures forall h :: h in list ==> h in pool
      ensures forall h :: h in pool ==> (h.headerInUse <==> h in list)
      ensures |list| == |regions| && forall j, k :: 0 <= j < k < |list| ==> list[j] != list[k]
    {
    }

    lemma Neighbours(i: nat)
      requires Links() && i < |list|
      ensures |list| == |regions| && list[i].memory == regions[i].first && list[i].size == regions[i].pages &&
          list[i].inUse == regions[i].inUse
      ensures if i + 1 < |list| then
                list[i].next == list[i + 1] && list[i + 1].memory == regions[i + 1].first &&
                  list[i + 1].inUse == regions[i + 1].inUse
              else list[i].next == null
      ensures if i > 0 then
                && list[i].prev == list[i - 1] && list[i - 1].memory == regions[i - 1].first
                && list[i - 1].size == regions[i - 1].pages && list[i - 1].inUse == regions[i - 1].inUse
              else list[i].prev == null
    {
      assert Node(i);
      assert i > 0 ==> Node(i - 1);
      assert i + 1 < |list| ==> Node(i + 1);
    }

    method Merge(header: PhysMemHeader, gone: PhysMemHeader, ghost i: nat, second: bool)
      requires Links() && Flagged({}) && headersInUse == |list| && i + 1 < |list| && header == list[i] &&
          gone == list[i + 1]
      modifies this`list, this`regions, this`headersInUse, list`next, list`prev, list`size, list`headerInUse
      ensures Links() && Flagged({}) && headersInUse == |list|
      ensures regions == MergeAt(old(regions), i) && list == old(list)[..i + 1] + old(list)[i + 2..]
    {
      Flags();
      hide *;
      ghost var before := list;
      MergeHeaders(header, gone, i, second);
      FlagsRemoved(before, gone, i);
    }

    method MergeAdjacentHeaders(header: PhysMemHeader, ghost i: nat)
      requires Links() && Flagged({}) && headersInUse == |list| && i < |list| && header == list[i]
      modifies this`list, this`regions, this`headersInUse, list`next, list`prev, list`size, list`headerInUse
      ensures Links() && Flagged({}) && headersInUse == |list|
      ensures i < |old(regions)| && regions == Coalesce(old(regions), i)
    {
      hide *;
      ghost var c0 := regions;
      Neighbours(i);
      if header.next != null && !header.next.inUse && header.memory + header.size == header.next.memory {
        Merge(header, header.next, i, false);
      }
      Neighbours(i);
      CoalesceIs(c0, i);
      if header.prev != null && !header.prev.inUse && header.prev.memory + header.prev.size == header.memory {
        Merge(header.prev, header, i - 1, true);
      }
    }

    method FindHolder(addr: nat) returns (h: PhysMemHeader?)
      requires Consistent()
      ensures h == NodeAt(list, Holder(regions, addr))
    {
      h := firstHeader;
      ghost var i := 0;
      while h != null
        invariant i <= |list| && h == NodeAt(list, i) && i <= Holder(regions, addr)
        decreases |list| - i
      {
        assert Node(i);
        if h.memory * PAGE <= addr && h.memory * PAGE + h.size * PAGE > addr {
          assert regions[i].Has(addr / PAGE);
          return h;
        }
        h, i := h.next, i + 1;
      }
    }

    /** `FreeAborted` is where the kernel aborts. */
    method FreeMemArea(addr: nat, len: nat) returns (r: FreeResult)
      requires Valid()
      modifies this`list, this`regions, this`headersInUse, list`next, list`prev, list`size, list`inUse, list`headerInUse
      ensures !r.FreeAborted? ==> Valid()
      ensures match Free(old(Current()), addr, len)
              case Freed(s) => r == FreeSuccess && Current() == s
              case Invalid => r == FreeInvalid && Current() == old(Current())
              case Abort => r == FreeAborted
    {
      hide *;
      ghost var s, i := Current(), Holder(regions, addr);
      ValidParts();
      ConsistentParts();
      AtNode(i);
      FreeCases(s, addr, len);
      var header := FindHolder(addr);
      if header == null {
        return FreeInvalid;
      }
      if header.memory * PAGE + header.size * PAGE < (addr + len) % SPACE {
        return FreeAborted;
      }
      if !header.inUse {
        return FreeInvalid;
      }
      PoolParts();
      SetUse(header, i, false);
      MergeAdjacentHeaders(header, i);
      CurrentIs();
      Flags();
      ConsistentIs();
      ValidIs();
      r := FreeSuccess;
    }
  }

  /** What a reservation of `len` bytes does to the address space: whether it could map a chunk of
      headers if it needed one, and the mapping afterwards. */
  ghost function GetMapping(s: State, m: PagingModel.VMap, len: nat, chunkBytes: nat): (bool, PagingModel.VMap) {
    var i := FirstFit(s.regions, RoundUp(len));
    if i == |s.regions| then (false, m) else ReserveMapping(s, m, i, RoundUp(len), chunkBytes)
  }

  ghost function ReserveMapping(s: State, m: PagingModel.VMap, i: nat, pages: nat, chunkBytes: nat)
    : (bool, PagingModel.VMap)
    requires i < |s.regions|
  {
    var s1 := s.(regions := Use(s.regions, i, true));
    (ChunkMapping(s1, m, chunkBytes).0, SplitMap(s1, m, i, pages, chunkBytes))
  }

  /** The same for a reservation at an address. */
  ghost function GetAtMapping(s: State, m: PagingModel.VMap, addr: nat, len: nat, chunkBytes: nat)
    : (bool, PagingModel.VMap) {
    var i := HeaderFor(s.regions, addr);
    if i == |s.regions| || s.regions[i].inUse || s.regions[i].pages * PAGE < len then (false, m)
    else ReserveMapping(s, m, i, RoundUp(len), chunkBytes)
  }

  lemma GetAtCases(s: State, m: PagingModel.VMap, addr: nat, len: nat, perChunk: nat, chunkBytes: nat)
    requires Inv(s) && 1 <= perChunk
    ensures var (i, pages) := (HeaderFor(s.regions, addr), RoundUp(len));
            var (mapped, m') := GetAtMapping(s, m, addr, len, chunkBytes);
            if i == |s.regions| || s.regions[i].inUse || s.regions[i].pages * PAGE < len then
              GetAt(s, addr, len, perChunk, mapped) == (s, PmmNoMem) && m' == m
            else
              var s1 := State(Use(s.regions, i, true), s.headers);
              && i < |s1.regions| && s1.regions[i].inUse && pages <= s1.regions[i].pages &&
                s1.regions[i].first * PAGE <= addr
              && mapped == ChunkMapping(s1, m, chunkBytes).0 && m' == SplitMap(s1, m, i, pages, chunkBytes)
              && GetAt(s, addr, len, perChunk, mapped) == (Split(s1, i, pages, perChunk, mapped), PmmSuccess)
              && Inv(Split(s1, i, pages, perChunk, mapped))
  {
    GetAtKeeps(s, addr, len, perChunk, GetAtMapping(s, m, addr, len, chunkBytes).0);
    var i := HeaderFor(s.regions, addr);
    if i < |s.regions| && !s.regions[i].inUse && s.regions[i].pages * PAGE >= len {
      RoundUpFits(len, s.regions[i].pages);
    }
  }

  datatype FreeResult = FreeSuccess | FreeInvalid | FreeAborted

  lemma CoalesceIs(regions: seq<Region>, i: nat)
    requires i < |regions|
    ensures var r := if i + 1 < |regions| && !regions[i + 1].inUse &&
        regions[i].first + regions[i].pages == regions[i + 1].first then MergeAt(regions, i) else regions;
            && i < |r| && (i > 0 ==> r[i - 1] == regions[i - 1] && r[i].first == regions[i].first)
            && Coalesce(regions, i) ==
               (if i > 0 && !r[i - 1].inUse &&
                 r[i - 1].first + r[i - 1].pages == r[i].first then MergeAt(r, i - 1) else r)
  {
  }

  lemma FreeCases(s: State, addr: nat, len: nat)
    requires Inv(s)
    ensures var i := Holder(s.regions, addr);
            match Free(s, addr, len)
            case Invalid => i == |s.regions| || (!s.regions[i].inUse &&
              !(s.regions[i].first * PAGE + s.regions[i].pages * PAGE < (addr + len) % SPACE))
            case Abort => i < |s.regions| &&
              s.regions[i].first * PAGE + s.regions[i].pages * PAGE < (addr + len) % SPACE
            case Freed(s') =>
              && i < |s.regions| && s.regions[i].inUse
              && !(s.regions[i].first * PAGE + s.regions[i].pages * PAGE < (addr + len) % SPACE)
              && i < |Use(s.regions, i, false)|
              && s' == State(Coalesce(Use(s.regions, i, false), i), s.headers) && Inv(s')
  {
    if Free(s, addr, len).Freed? {
      FreeReturns(s, addr, len);
    }
  }

  lemma UseSize(regions: seq<Region>, i: nat, inUse: bool)
    requires i < |regions|
    ensures |Use(regions, i, inUse)| == |regions| && Use(regions, i, inUse)[i] == regions[i].(inUse := inUse)
  {
  }

  lemma GetCases(s: State, m: PagingModel.VMap, len: nat, perChunk: nat, chunkBytes: nat)
    requires Inv(s) && 1 <= perChunk
    ensures var (i, pages) := (FirstFit(s.regions, RoundUp(len)), RoundUp(len));
            var (mapped, m') := GetMapping(s, m, len, chunkBytes);
            if i == |s.regions| then Get(s, len, perChunk, mapped) == (s, PmmNoMem, 0) && m' == m
            else
              var s1 := State(Use(s.regions, i, true), s.headers);
              && !s.regions[i].inUse && i < |s1.regions| && s1.regions[i].inUse && pages <= s1.regions[i].pages
              && mapped == ChunkMapping(s1, m, chunkBytes).0 && m' == SplitMap(s1, m, i, pages, chunkBytes)
              && Get(s, len, perChunk, mapped)
                 == (Split(s1, i, pages, perChunk, mapped), PmmSuccess, s.regions[i].first)
              && Inv(Split(s1, i, pages, perChunk, mapped))
              && i < |Split(s1, i, pages, perChunk, mapped).regions|
              && Split(s1, i, pages, perChunk, mapped).regions[i].first == s.regions[i].first
  {
    var i := FirstFit(s.regions, RoundUp(len));
    if i < |s.regions| {
      ReserveKeeps(s, i, RoundUp(len), perChunk, GetMapping(s, m, len, chunkBytes).0);
    }
  }

  lemma SplitCases(s: State, m: PagingModel.VMap, i: nat, pages: nat, perChunk: nat, mapped: bool, chunkBytes: nat)
    requires Sound(s.regions) && |s.regions| < s.headers && 1 <= perChunk
    requires i < |s.regions| && s.regions[i].inUse && pages <= s.regions[i].pages
    ensures var s' := Split(s, i, pages, perChunk, mapped); Sound(s'.regions) && |s'.regions| < s'.headers
    ensures var (t, ok) := NewHeader(s, perChunk, mapped);
            if s.regions[i].pages == pages then
              Split(s, i, pages, perChunk, mapped) == s && SplitMap(s, m, i, pages, chunkBytes) == m
            else
              && i < |t.regions| && t.regions[i] == s.regions[i]
              && SplitMap(s, m, i, pages, chunkBytes) == ChunkUpdate(s, m, chunkBytes)
              && Split(s, i, pages, perChunk, mapped) == (if ok then t.(regions := Cut(t.regions, i, pages)) else t)
  {
    NewHeaderKeepsRegion(s, i, perChunk, mapped);
    SplitKeeps(s, i, pages, perChunk, mapped);
  }
}
