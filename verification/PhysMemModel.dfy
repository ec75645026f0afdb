/** The physical memory manager's list of regions, and what reserving and freeing do to it.
    A `page` object always holds a multiple of the page size, so it is a page number here. */
module PhysMemModel {
  import opened Machine

  datatype Region = Region(first: nat, pages: nat, inUse: bool) {
    function End(): nat { first + pages }

    predicate Has(p: nat) { first <= p < End() }
  }

  /** The regions in list order, and the number of headers in all the chunks. */
  datatype State = State(regions: seq<Region>, headers: nat)

  datatype PmmResult = PmmSuccess | PmmInvalid | PmmNoMem

  /** `round_up_to_page` in 32-bit arithmetic. */
  function RoundUp(len: nat): nat { (len + (PAGE - 1)) % SPACE / PAGE }

  // ---------- The invariant ----------

  ghost predicate Apart(r: Region, q: Region) {
    r.pages == 0 || q.pages == 0 || r.End() <= q.first || q.End() <= r.first
  }

  ghost predicate Sound(regions: seq<Region>) {
    && (forall i :: 0 <= i < |regions| ==> regions[i].End() < PAGES && (regions[i].inUse || regions[i].pages > 0))
    && (forall i, j :: 0 <= i < j < |regions| ==> Apart(regions[i], regions[j]))
  }

  /** No two neighbours in the list could be merged. */
  ghost predicate Coalesced(regions: seq<Region>) {
    forall i :: 0 < i < |regions| ==>
      regions[i - 1].inUse || regions[i].inUse || regions[i - 1].End() != regions[i].first
  }

  ghost predicate Inv(s: State) {
    Sound(s.regions) && Coalesced(s.regions) && |s.regions| < s.headers
  }

  /** The pages under headers that are in use, or free. */
  ghost function PagesOf(regions: seq<Region>, inUse: bool): set<nat> {
    set p: nat | p < PAGES && Held(regions, inUse, p)
  }

  ghost predicate Held(regions: seq<Region>, inUse: bool, p: nat) {
    exists i :: 0 <= i < |regions| && regions[i].inUse == inUse && regions[i].Has(p)
  }

  ghost function RegionPages(r: Region): set<nat> { set p: nat | r.first <= p < r.End() && r.Has(p) }

  // ---------- The operations ----------

  /** Index of the first free region of at least `pages` pages, or the length of the list. */
  function FirstFit(regions: seq<Region>, pages: nat): (i: nat)
    ensures i <= |regions|
    ensures i < |regions| ==> !regions[i].inUse && regions[i].pages >= pages
    ensures forall j :: 0 <= j < i ==> regions[j].inUse || regions[j].pages < pages
  {
    if regions == [] then 0
    else if !regions[0].inUse && regions[0].pages >= pages then 0
    else
      var i := FirstFit(regions[1..], pages);
      assert forall j :: 1 <= j < i + 1 ==> regions[j] == regions[1..][j - 1];
      i + 1
  }

  function Use(regions: seq<Region>, i: nat, inUse: bool): seq<Region>
    requires i < |regions|
  {
    regions[i := regions[i].(inUse := inUse)]
  }

  /** Cut the region at `i` to `pages` pages and put the rest, free, behind it. */
  function Cut(regions: seq<Region>, i: nat, pages: nat): seq<Region>
    requires i < |regions| && pages <= regions[i].pages
  {
    var r := regions[i];
    regions[..i] + [r.(pages := pages), Region(r.first + pages, r.pages - pages, false)] + regions[i + 1..]
  }

  function MergeAt(regions: seq<Region>, i: nat): seq<Region>
    requires i + 1 < |regions|
  {
    regions[..i] + [regions[i].(pages := regions[i].pages + regions[i + 1].pages)] + regions[i + 2..]
  }

  /** A new chunk of headers is needed before another header can be handed out. */
  predicate NeedsChunk(s: State) { |s.regions| + 1 >= s.headers }

  /** `get_header_chunk`: the length it asks for, 1 byte, rounds down to no pages, so it claims all
      of the first free region.  `mapped` is whether mapping the chunk succeeded. */
  function Grow(s: State, perChunk: nat, mapped: bool): (State, bool) {
    var j := FirstFit(s.regions, 0);
    if j == |s.regions| || !mapped then (s, false)
    else (State(Use(s.regions, j, true), s.headers + perChunk), true)
  }

  /** `get_new_header`: the pool afterwards, and whether there is a header. */
  function NewHeader(s: State, perChunk: nat, mapped: bool): (State, bool) {
    if NeedsChunk(s) then Grow(s, perChunk, mapped) else (s, true)
  }

  lemma NewHeaderKeepsRegion(s: State, i: nat, perChunk: nat, mapped: bool)
    requires i < |s.regions| && s.regions[i].inUse
    ensures var t := NewHeader(s, perChunk, mapped).0;
            |t.regions| == |s.regions| && t.regions[i] == s.regions[i]
  {
  }

  /** `split_header_at_len` on the region at `i`, which is in use. */
  function Split(s: State, i: nat, pages: nat, perChunk: nat, mapped: bool): State
    requires i < |s.regions| && s.regions[i].inUse && pages <= s.regions[i].pages
  {
    if s.regions[i].pages == pages then s
    else
      NewHeaderKeepsRegion(s, i, perChunk, mapped);
      var (t, ok) := NewHeader(s, perChunk, mapped);
      if ok then t.(regions := Cut(t.regions, i, pages)) else t
  }

  /** The state after reserving the free region at `i`. */
  function Reserve(s: State, i: nat, pages: nat, perChunk: nat, mapped: bool): State
    requires i < |s.regions| && pages <= s.regions[i].pages
  {
    Split(s.(regions := Use(s.regions, i, true)), i, pages, perChunk, mapped)
  }

  /** `get_mem_area` without an address: the state, the result, and the first page reserved. */
  function Get(s: State, len: nat, perChunk: nat, mapped: bool): (State, PmmResult, nat) {
    var i := FirstFit(s.regions, RoundUp(len));
    if i == |s.regions| then (s, PmmNoMem, 0)
    else (Reserve(s, i, RoundUp(len), perChunk, mapped), PmmSuccess, s.regions[i].first)
  }

  /** Index of the header `find_header_for_page` stops at: the address may also be one past it. */
  function HeaderFor(regions: seq<Region>, addr: nat): (i: nat)
    ensures i <= |regions|
    ensures i < |regions| ==> regions[i].first * PAGE <= addr <= regions[i].End() * PAGE
    ensures forall j :: 0 <= j < i ==> !(regions[j].first * PAGE <= addr <= regions[j].End() * PAGE)
  {
    if regions == [] then 0
    else if regions[0].first * PAGE <= addr <= regions[0].End() * PAGE then 0
    else
      var i := HeaderFor(regions[1..], addr);
      assert forall j :: 1 <= j < i + 1 ==> regions[j] == regions[1..][j - 1];
      i + 1
  }

  /** `get_mem_area` at an address. */
  function GetAt(s: State, addr: nat, len: nat, perChunk: nat, mapped: bool): (State, PmmResult)
    requires forall i :: 0 <= i < |s.regions| ==> s.regions[i].End() < PAGES
  {
    var i := HeaderFor(s.regions, addr);
    if i == |s.regions| || s.regions[i].inUse || s.regions[i].pages * PAGE < len then (s, PmmNoMem)
    else
      RoundUpFits(len, s.regions[i].pages);
      (Reserve(s, i, RoundUp(len), perChunk, mapped), PmmSuccess)
  }

  lemma RoundUpFits(len: nat, pages: nat)
    requires len <= pages * PAGE && pages < PAGES
    ensures RoundUp(len) <= pages && RoundUp(len) * PAGE >= len && RoundUp(len) * PAGE < len + PAGE
  {
  }

  /** Index of the header whose region holds `addr`. */
  function Holder(regions: seq<Region>, addr: nat): (i: nat)
    ensures i <= |regions|
    ensures i < |regions| ==> regions[i].Has(addr / PAGE)
    ensures forall j :: 0 <= j < i ==> !regions[j].Has(addr / PAGE)
  {
    if regions == [] then 0
    else if regions[0].first * PAGE <= addr < regions[0].End() * PAGE then 0
    else
      var i := Holder(regions[1..], addr);
      assert forall j :: 1 <= j < i + 1 ==> regions[j] == regions[1..][j - 1];
      i + 1
  }

  predicate Joins(regions: seq<Region>, i: nat)
    requires i + 1 < |regions|
  {
    regions[i].End() == regions[i + 1].first
  }

  /** `merge_adjacent_headers` on the region at `i`. */
  function Coalesce(regions: seq<Region>, i: nat): seq<Region>
    requires i < |regions|
  {
    var r := if i + 1 < |regions| && !regions[i + 1].inUse && Joins(regions, i) then MergeAt(regions, i) else regions;
    if i > 0 && !r[i - 1].inUse && Joins(r, i - 1) then MergeAt(r, i - 1) else r
  }

  datatype FreeOutcome = Freed(s: State) | Invalid | Abort

  /** `free_mem_area`. */
  function Free(s: State, addr: nat, len: nat): FreeOutcome {
    var i := Holder(s.regions, addr);
    if i == |s.regions| then Invalid
    else if s.regions[i].End() * PAGE < (addr + len) % SPACE then Abort
    else if !s.regions[i].inUse then Invalid
    else Freed(s.(regions := Coalesce(Use(s.regions, i, false), i)))
  }

  // ---------- What each edit of the list does to the pages ----------

  /** No page is under two headers. */
  lemma OneHolder(regions: seq<Region>, i: nat, j: nat, p: nat)
    requires Sound(regions) && i < |regions| && j < |regions| && regions[i].Has(p) && regions[j].Has(p)
    ensures i == j
  {
  }

  lemma UsePages(regions: seq<Region>, i: nat, inUse: bool)
    requires Sound(regions) && i < |regions| && regions[i].inUse != inUse
    ensures PagesOf(Use(regions, i, inUse), inUse) == PagesOf(regions, inUse) + RegionPages(regions[i])
    ensures PagesOf(Use(regions, i, inUse), !inUse) == PagesOf(regions, !inUse) - RegionPages(regions[i])
  {
    var t := Use(regions, i, inUse);
    forall p: nat | p < PAGES
      ensures Held(t, inUse, p) <==> Held(regions, inUse, p) || regions[i].Has(p)
      ensures Held(t, !inUse, p) <==> Held(regions, !inUse, p) && !regions[i].Has(p)
    {
      UseHeld(regions, i, inUse, p);
    }
  }

  lemma UseHeld(regions: seq<Region>, i: nat, inUse: bool, p: nat)
    requires Sound(regions) && i < |regions| && regions[i].inUse != inUse
    ensures var t := Use(regions, i, inUse);
            && (Held(t, inUse, p) <==> Held(regions, inUse, p) || regions[i].Has(p))
            && (Held(t, !inUse, p) <==> Held(regions, !inUse, p) && !regions[i].Has(p))
  {
    var t := Use(regions, i, inUse);
    assert t[i].inUse == inUse && (t[i].Has(p) <==> regions[i].Has(p));
    assert forall j :: 0 <= j < |t| && j != i ==> t[j] == regions[j];
    if j :| 0 <= j < |regions| && regions[j].Has(p) {
      OnlyHolder(regions, j, p);
    }
  }

  lemma UseSound(regions: seq<Region>, i: nat, inUse: bool)
    requires Sound(regions) && i < |regions| && regions[i].pages > 0
    ensures Sound(Use(regions, i, inUse))
  {
    var t := Use(regions, i, inUse);
    forall j, k | 0 <= j < k < |t| ensures Apart(t[j], t[k]) {
      assert Apart(regions[j], regions[k]);
    }
  }

  lemma CutSound(regions: seq<Region>, i: nat, pages: nat)
    requires Sound(regions) && i < |regions| && regions[i].inUse && pages < regions[i].pages
    ensures Sound(Cut(regions, i, pages))
  {
    var t := Cut(regions, i, pages);
    forall j, k | 0 <= j < k < |t| ensures Apart(t[j], t[k]) {
      var j', k' := if j <= i then j else j - 1, if k <= i then k else k - 1;
      assert j' < k' ==> Apart(regions[j'], regions[k']);
    }
  }

  lemma CutHeld(regions: seq<Region>, i: nat, pages: nat, p: nat)
    requires Sound(regions) && i < |regions| && regions[i].inUse && pages <= regions[i].pages
    ensures var t := Cut(regions, i, pages);
            && (Held(t, true, p) <==> Held(regions, true, p) && !t[i + 1].Has(p))
            && (Held(t, false, p) <==> Held(regions, false, p) || t[i + 1].Has(p))
  {
    var t := Cut(regions, i, pages);
    assert regions[i].Has(p) <==> t[i].Has(p) || t[i + 1].Has(p);
    CutIndex(regions, i, pages);
    hide Cut;
    if j :| 0 <= j < |regions| && regions[j].Has(p) {
      assert j != i ==> t[if j < i then j else j + 1] == regions[j];
      OnlyHolder(regions, j, p);
    }
    if k :| 0 <= k < |t| && t[k].Has(p) && k != i && k != i + 1 {
      assert t[k] == regions[if k < i then k else k - 1];
    }
    assert t[i + 1].Has(p) ==> Held(t, false, p);
    assert t[i].Has(p) ==> Held(t, true, p);
  }

  lemma CutIndex(regions: seq<Region>, i: nat, pages: nat)
    requires i < |regions| && pages <= regions[i].pages
    ensures var t, r := Cut(regions, i, pages), regions[i];
            && |t| == |regions| + 1 && t[i] == r.(pages := pages)
            && t[i + 1] == Region(r.first + pages, r.pages - pages, false)
            && (forall j :: 0 <= j < i ==> t[j] == regions[j])
            && (forall j :: i + 1 < j < |t| ==> t[j] == regions[j - 1])
  {
  }

  lemma OnlyHolder(regions: seq<Region>, i: nat, p: nat)
    requires Sound(regions) && i < |regions| && regions[i].Has(p)
    ensures forall j :: 0 <= j < |regions| && regions[j].Has(p) ==> j == i
  {
    forall j | 0 <= j < |regions| && regions[j].Has(p) ensures j == i {
      OneHolder(regions, j, i, p);
    }
  }

  lemma CutPages(regions: seq<Region>, i: nat, pages: nat)
    requires Sound(regions) && i < |regions| && regions[i].inUse && pages <= regions[i].pages
    ensures var t := Cut(regions, i, pages);
            && PagesOf(t, true) == PagesOf(regions, true) - RegionPages(t[i + 1])
            && PagesOf(t, false) == PagesOf(regions, false) + RegionPages(t[i + 1])
  {
    var t := Cut(regions, i, pages);
    assert regions[i].End() < PAGES;
    forall p: nat | p < PAGES
      ensures Held(t, true, p) <==> Held(regions, true, p) && !t[i + 1].Has(p)
      ensures Held(t, false, p) <==> Held(regions, false, p) || t[i + 1].Has(p)
    {
      CutHeld(regions, i, pages, p);
    }
  }

  lemma MergeSound(regions: seq<Region>, i: nat)
    requires Sound(regions) && i + 1 < |regions| && !regions[i].inUse && !regions[i + 1].inUse && Joins(regions, i)
    ensures Sound(MergeAt(regions, i))
  {
    var t := MergeAt(regions, i);
    MergeIndex(regions, i);
    hide MergeAt;
    forall j, k | 0 <= j < k < |t| ensures Apart(t[j], t[k]) {
      var j', k' := if j <= i then j else j + 1, if k <= i then k else k + 1;
      assert Apart(regions[j'], regions[k']);
      if k == i {
        assert Apart(regions[j'], regions[i + 1]);
      } else if j == i {
        assert Apart(regions[i + 1], regions[k']);
      }
    }
  }

  lemma MergeIndex(regions: seq<Region>, i: nat)
    requires i + 1 < |regions|
    ensures var t := MergeAt(regions, i);
            && |t| == |regions| - 1 && t[i] == regions[i].(pages := regions[i].pages + regions[i + 1].pages)
            && (forall j :: 0 <= j < i ==> t[j] == regions[j])
            && (forall j :: i < j < |t| ==> t[j] == regions[j + 1])
  {
  }

  lemma MergePages(regions: seq<Region>, i: nat)
    requires i + 1 < |regions| && regions[i].inUse == regions[i + 1].inUse && Joins(regions, i)
    ensures forall b :: PagesOf(MergeAt(regions, i), b) == PagesOf(regions, b)
  {
    forall b, p: nat | p < PAGES ensures Held(MergeAt(regions, i), b, p) == Held(regions, b, p) {
      MergeHeld(regions, i, b, p);
    }
  }

  lemma MergeHeld(regions: seq<Region>, i: nat, b: bool, p: nat)
    requires i + 1 < |regions| && regions[i].inUse == regions[i + 1].inUse && Joins(regions, i)
    ensures Held(MergeAt(regions, i), b, p) == Held(regions, b, p)
  {
    var t := MergeAt(regions, i);
    assert t[i].Has(p) <==> regions[i].Has(p) || regions[i + 1].Has(p);
    if j :| 0 <= j < |regions| && regions[j].inUse == b && regions[j].Has(p) {
      var k := if j <= i then j else j - 1;
      assert t[k].inUse == b && t[k].Has(p);
    }
    if k :| 0 <= k < |t| && t[k].inUse == b && t[k].Has(p) {
      var j := if k <= i then k else k + 1;
      assert regions[if k == i && !regions[i].Has(p) then i + 1 else j].Has(p);
    }
  }

  // ---------- Coalescing ----------

  ghost predicate CoalescedExcept(regions: seq<Region>, i: nat) {
    forall j :: 0 < j < |regions| && j != i ==>
      regions[j - 1].inUse || regions[j].inUse || regions[j - 1].End() != regions[j].first
  }

  lemma MergeNextCoalesced(regions: seq<Region>, i: nat)
    requires Coalesced(regions) && i + 1 < |regions| && regions[i].inUse && !regions[i + 1].inUse
    requires regions[i].End() == regions[i + 1].first
    ensures CoalescedExcept(MergeAt(Use(regions, i, false), i), i)
  {
    var d := MergeAt(Use(regions, i, false), i);
    forall j | 0 < j < |d| && j != i ensures d[j - 1].inUse || d[j].inUse || d[j - 1].End() != d[j].first {
      var k := if j <= i then j else j + 1;
      assert regions[k - 1].inUse || regions[k].inUse || regions[k - 1].End() != regions[k].first;
    }
  }

  lemma CoalesceNext(regions: seq<Region>, i: nat)
    requires Sound(regions) && Coalesced(regions) && i < |regions| && regions[i].inUse && regions[i].pages > 0
    ensures var c0 := Use(regions, i, false);
            var c1 := if i + 1 < |c0| && !c0[i + 1].inUse && Joins(c0, i) then MergeAt(c0, i) else c0;
            && Sound(c1) && CoalescedExcept(c1, i) && i < |c1| <= |regions| && !c1[i].inUse
            && PagesOf(c1, true) == PagesOf(regions, true) - RegionPages(regions[i])
            && PagesOf(c1, false) == PagesOf(regions, false) + RegionPages(regions[i])
  {
    var c0 := Use(regions, i, false);
    UseSound(regions, i, false);
    UsePages(regions, i, false);
    if i + 1 < |c0| && !c0[i + 1].inUse && Joins(c0, i) {
      MergeSound(c0, i);
      MergePages(c0, i);
      MergeNextCoalesced(regions, i);
    }
  }

  lemma MergePrevCoalesced(c: seq<Region>, i: nat)
    requires CoalescedExcept(c, i) && 0 < i < |c| && !c[i - 1].inUse && !c[i].inUse && Joins(c, i - 1)
    ensures Coalesced(MergeAt(c, i - 1))
  {
    var d := MergeAt(c, i - 1);
    forall j | 0 < j < |d| ensures d[j - 1].inUse || d[j].inUse || d[j - 1].End() != d[j].first {
      var k := if j < i then j else j + 1;
      assert d[j].first == c[k].first || j == i - 1;
      assert c[k - 1].inUse || c[k].inUse || c[k - 1].End() != c[k].first;
    }
  }

  lemma CoalescePrev(c: seq<Region>, i: nat)
    requires Sound(c) && CoalescedExcept(c, i) && i < |c| && !c[i].inUse
    ensures var d := if i > 0 && !c[i - 1].inUse && Joins(c, i - 1) then MergeAt(c, i - 1) else c;
            && Sound(d) && Coalesced(d) && |d| <= |c|
            && (forall b :: PagesOf(d, b) == PagesOf(c, b))
  {
    if i > 0 && !c[i - 1].inUse && Joins(c, i - 1) {
      MergeSound(c, i - 1);
      MergePages(c, i - 1);
      MergePrevCoalesced(c, i);
    }
  }

  /** Freeing a block moves exactly its pages from used to free, and leaves nothing to merge. */
  lemma CoalesceKeeps(regions: seq<Region>, i: nat)
    requires Sound(regions) && Coalesced(regions) && i < |regions| && regions[i].inUse && regions[i].pages > 0
    ensures var d := Coalesce(Use(regions, i, false), i);
            && Sound(d) && Coalesced(d) && |d| <= |regions|
            && PagesOf(d, true) == PagesOf(regions, true) - RegionPages(regions[i])
            && PagesOf(d, false) == PagesOf(regions, false) + RegionPages(regions[i])
  {
    CoalesceNext(regions, i);
    var c0 := Use(regions, i, false);
    var c1 := if i + 1 < |c0| && !c0[i + 1].inUse && Joins(c0, i) then MergeAt(c0, i) else c0;
    CoalescePrev(c1, i);
  }

  // ---------- Reserving ----------

  /** The region that a split has to claim for a new chunk of headers, if it claims one. */
  ghost function ChunkPages(s: State, i: nat, pages: nat, mapped: bool): set<nat>
    requires i < |s.regions|
  {
    var j := FirstFit(s.regions, 0);
    if s.regions[i].pages != pages && NeedsChunk(s) && j < |s.regions| && mapped then RegionPages(s.regions[j]) else {}
  }

  /** A split gives up the pages behind the first `pages` ones, unless it gets no header; and a new
      chunk of headers takes one whole free region. */
  lemma SplitKeeps(s: State, i: nat, pages: nat, perChunk: nat, mapped: bool)
    requires Sound(s.regions) && |s.regions| < s.headers && 1 <= perChunk
    requires i < |s.regions| && s.regions[i].inUse && pages <= s.regions[i].pages
    ensures var s' := Split(s, i, pages, perChunk, mapped);
            && Sound(s'.regions) && |s'.regions| < s'.headers
            && i < |s'.regions| && s'.regions[i].inUse && s'.regions[i].first == s.regions[i].first
            && pages <= s'.regions[i].pages <= s.regions[i].pages
            && var chunk, rest := ChunkPages(s, i, pages, mapped),
              RegionPages(s.regions[i]) - RegionPages(s'.regions[i]);
               && chunk <= PagesOf(s.regions, false) && rest <= PagesOf(s.regions, true)
               && PagesOf(s'.regions, true) == PagesOf(s.regions, true) - rest + chunk
               && PagesOf(s'.regions, false) == PagesOf(s.regions, false) - chunk + rest
  {
    SplitShape(s, i, pages, perChunk, mapped);
    if s.regions[i].pages != pages {
      NewHeaderKeepsRegion(s, i, perChunk, mapped);
      var (t, ok) := NewHeader(s, perChunk, mapped);
      GrowKeeps(s, i, pages, perChunk, mapped);
      if ok {
        CutPages(t.regions, i, pages);
        CutIndex(t.regions, i, pages);
        var u := Cut(t.regions, i, pages);
        RestPages(s.regions[i], u[i], u[i + 1]);
        RegionPagesHeld(s.regions, i);
        hide PagesOf, RegionPages, ChunkPages, NewHeader, Sound, Cut;
      }
    }
  }

  lemma SplitShape(s: State, i: nat, pages: nat, perChunk: nat, mapped: bool)
    requires Sound(s.regions) && |s.regions| < s.headers && 1 <= perChunk
    requires i < |s.regions| && s.regions[i].inUse && pages <= s.regions[i].pages
    ensures var s' := Split(s, i, pages, perChunk, mapped);
            && Sound(s'.regions) && |s'.regions| < s'.headers
            && i < |s'.regions| && s'.regions[i].inUse && s'.regions[i].first == s.regions[i].first
            && pages <= s'.regions[i].pages <= s.regions[i].pages
  {
    if s.regions[i].pages != pages {
      NewHeaderKeepsRegion(s, i, perChunk, mapped);
      var (t, ok) := NewHeader(s, perChunk, mapped);
      GrowKeeps(s, i, pages, perChunk, mapped);
      if ok {
        CutSound(t.regions, i, pages);
        CutIndex(t.regions, i, pages);
        hide Cut, Sound, NewHeader, PagesOf, ChunkPages;
      }
    }
  }

  lemma RestPages(r: Region, q: Region, rest: Region)
    requires q.first == r.first && rest.first == q.End() && rest.End() == r.End()
    ensures RegionPages(rest) == RegionPages(r) - RegionPages(q)
  {
    assert forall p: nat :: rest.Has(p) <==> r.Has(p) && !q.Has(p);
  }

  lemma RegionPagesHeld(regions: seq<Region>, i: nat)
    requires Sound(regions) && i < |regions|
    ensures RegionPages(regions[i]) <= PagesOf(regions, regions[i].inUse)
    ensures RegionPages(regions[i]) !! PagesOf(regions, !regions[i].inUse)
  {
    forall p | p in RegionPages(regions[i])
      ensures p in PagesOf(regions, regions[i].inUse) && p !in PagesOf(regions, !regions[i].inUse)
    {
      OnlyHolder(regions, i, p);
    }
  }

  lemma GrowKeeps(s: State, i: nat, pages: nat, perChunk: nat, mapped: bool)
    requires Sound(s.regions) && |s.regions| < s.headers && 1 <= perChunk
    requires i < |s.regions| && s.regions[i].inUse && s.regions[i].pages != pages
    ensures var (t, ok) := NewHeader(s, perChunk, mapped);
            && Sound(t.regions) && |t.regions| == |s.regions| && |t.regions| + (if ok then 1 else 0) < t.headers
            && var chunk := ChunkPages(s, i, pages, mapped);
               && chunk <= PagesOf(s.regions, false)
               && PagesOf(t.regions, true) == PagesOf(s.regions, true) + chunk
               && PagesOf(t.regions, false) == PagesOf(s.regions, false) - chunk
  {
    var j := FirstFit(s.regions, 0);
    if NeedsChunk(s) && j < |s.regions| && mapped {
      UsePages(s.regions, j, true);
      UseSound(s.regions, j, true);
      RegionPagesHeld(s.regions, j);
    }
  }

  lemma SplitCoalesced(regions: seq<Region>, s: State, i: nat, pages: nat, perChunk: nat, mapped: bool)
    requires Coalesced(regions) && i < |regions| && !regions[i].inUse && s.regions == Use(regions, i, true)
    requires pages <= regions[i].pages
    ensures Coalesced(Split(s, i, pages, perChunk, mapped).regions)
  {
    NewHeaderKeepsRegion(s, i, perChunk, mapped);
    var t := NewHeader(s, perChunk, mapped).0.regions;
    assert forall j :: 0 <= j < |t| ==> t[j].first == regions[j].first && t[j].pages == regions[j].pages;
    assert forall j :: 0 <= j < |t| ==> (regions[j].inUse ==> t[j].inUse);
    assert Coalesced(t);
    if s.regions[i].pages != pages {
      CutCoalesced(regions, t, i, pages);
    }
  }

  lemma CutCoalesced(regions: seq<Region>, t: seq<Region>, i: nat, pages: nat)
    requires Coalesced(regions) && Coalesced(t) && |t| == |regions| && i < |t| && pages <= t[i].pages
    requires !regions[i].inUse && t[i] == regions[i].(inUse := true)
    requires i + 1 < |t| ==> t[i + 1].first == regions[i + 1].first && (regions[i + 1].inUse ==> t[i + 1].inUse)
    ensures Coalesced(Cut(t, i, pages))
  {
    var u := Cut(t, i, pages);
    forall j | 0 < j < |u| ensures u[j - 1].inUse || u[j].inUse || u[j - 1].End() != u[j].first {
      if j < i {
        assert t[j - 1].inUse || t[j].inUse || t[j - 1].End() != t[j].first;
      } else if j == i + 2 {
        assert regions[i].inUse || regions[i + 1].inUse || regions[i].End() != regions[i + 1].first;
      } else if j > i + 2 {
        assert t[j - 2].inUse || t[j - 1].inUse || t[j - 2].End() != t[j - 1].first;
      }
    }
  }

  /** There is a header for the rest of the region at `i`, or none is needed. */
  ghost predicate HeaderToSpare(s: State, i: nat, pages: nat, mapped: bool)
    requires i < |s.regions|
  {
    || s.regions[i].pages == pages || |s.regions| + 1 < s.headers
    || (FirstFit(Use(s.regions, i, true), 0) < |s.regions| && mapped)
  }

  /** What a reservation of the free region at `i` does: it takes a wholly free block, of exactly the
      pages asked for if there is a header for the rest, and perhaps one more region for headers. */
  ghost predicate Reserved(s: State, s': State, i: nat, pages: nat, mapped: bool)
    requires i < |s.regions|
  {
    && Inv(s') && i < |s'.regions|
    && s'.regions[i].inUse && s'.regions[i].first == s.regions[i].first
    && pages <= s'.regions[i].pages
    && (s'.regions[i].pages == pages <==> HeaderToSpare(s, i, pages, mapped))
    && var block := RegionPages(s'.regions[i]);
       var chunk := ChunkPages(s.(regions := Use(s.regions, i, true)), i, pages, mapped);
       && block !! chunk && block + chunk <= PagesOf(s.regions, false)
       && PagesOf(s'.regions, true) == PagesOf(s.regions, true) + block + chunk
       && PagesOf(s'.regions, false) == PagesOf(s.regions, false) - block - chunk
  }

  lemma ReserveShape(s: State, i: nat, pages: nat, perChunk: nat, mapped: bool)
    requires Inv(s) && 1 <= perChunk && i < |s.regions| && !s.regions[i].inUse && pages <= s.regions[i].pages
    ensures var s' := Reserve(s, i, pages, perChunk, mapped);
            && Sound(s'.regions) && Coalesced(s'.regions) && |s'.regions| < s'.headers
            && i < |s'.regions| && s'.regions[i].inUse && s'.regions[i].first == s.regions[i].first
            && pages <= s'.regions[i].pages <= s.regions[i].pages
            && (s'.regions[i].pages == pages <==> HeaderToSpare(s, i, pages, mapped))
  {
    var s1 := s.(regions := Use(s.regions, i, true));
    UseSound(s.regions, i, true);
    SplitKeeps(s1, i, pages, perChunk, mapped);
    SplitCoalesced(s.regions, s1, i, pages, perChunk, mapped);
    SplitSize(s, i, pages, perChunk, mapped);
  }

  lemma ReservePages(s: State, i: nat, pages: nat, perChunk: nat, mapped: bool)
    requires Inv(s) && 1 <= perChunk && i < |s.regions| && !s.regions[i].inUse && pages <= s.regions[i].pages
    ensures var s' := Reserve(s, i, pages, perChunk, mapped);
            i < |s'.regions| &&
            var whole, block := RegionPages(s.regions[i]), RegionPages(s'.regions[i]);
            var chunk := ChunkPages(s.(regions := Use(s.regions, i, true)), i, pages, mapped);
            && chunk <= PagesOf(s.regions, false) - whole
            && PagesOf(s'.regions, true) == PagesOf(s.regions, true) + whole - (whole - block) + chunk
            && PagesOf(s'.regions, false) == PagesOf(s.regions, false) - whole - chunk + (whole - block)
  {
    hide *;
    var s1 := s.(regions := Use(s.regions, i, true));
    InvParts(s);
    UseSound(s.regions, i, true);
    UsePages(s.regions, i, true);
    UseParts(s.regions, i, true);
    SplitKeeps(s1, i, pages, perChunk, mapped);
    ReserveIs(s, i, pages, perChunk, mapped);
    SameRegionPages(s.regions[i], s1.regions[i]);
  }

  lemma InvParts(s: State)
    ensures Inv(s) <==> Sound(s.regions) && Coalesced(s.regions) && |s.regions| < s.headers
    ensures Inv(s) ==> forall i :: 0 <= i < |s.regions| && !s.regions[i].inUse ==> s.regions[i].pages > 0
  {
  }

  lemma UseParts(regions: seq<Region>, i: nat, inUse: bool)
    requires i < |regions|
    ensures |Use(regions, i, inUse)| == |regions| && Use(regions, i, inUse)[i] == regions[i].(inUse := inUse)
  {
  }

  lemma ReserveIs(s: State, i: nat, pages: nat, perChunk: nat, mapped: bool)
    requires i < |s.regions| && pages <= s.regions[i].pages
    ensures var s1 := s.(regions := Use(s.regions, i, true));
            && i < |s1.regions| && s1.regions[i].inUse
            && Reserve(s, i, pages, perChunk, mapped) == Split(s1, i, pages, perChunk, mapped)
  {
  }

  lemma SameRegionPages(r: Region, q: Region)
    requires q.first == r.first && q.pages == r.pages
    ensures RegionPages(q) == RegionPages(r)
  {
    assert forall p: nat :: q.Has(p) <==> r.Has(p);
  }

  lemma ReserveKeeps(s: State, i: nat, pages: nat, perChunk: nat, mapped: bool)
    requires Inv(s) && 1 <= perChunk && i < |s.regions| && !s.regions[i].inUse && pages <= s.regions[i].pages
    ensures Reserved(s, Reserve(s, i, pages, perChunk, mapped), i, pages, mapped)
  {
    ReserveShape(s, i, pages, perChunk, mapped);
    ReservePages(s, i, pages, perChunk, mapped);
    RegionPagesHeld(s.regions, i);
    ReservedIntro(s, Reserve(s, i, pages, perChunk, mapped), i, pages, mapped);
  }

  lemma ReservedIntro(s: State, s': State, i: nat, pages: nat, mapped: bool)
    requires Sound(s'.regions) && Coalesced(s'.regions) && |s'.regions| < s'.headers
    requires i < |s.regions| && i < |s'.regions|
    requires s'.regions[i].inUse && s'.regions[i].first == s.regions[i].first
    requires pages <= s'.regions[i].pages <= s.regions[i].pages
    requires s'.regions[i].pages == pages <==> HeaderToSpare(s, i, pages, mapped)
    requires RegionPages(s.regions[i]) <= PagesOf(s.regions, false) &&
        RegionPages(s.regions[i]) !! PagesOf(s.regions, true)
    requires var whole, block := RegionPages(s.regions[i]), RegionPages(s'.regions[i]);
             var chunk := ChunkPages(s.(regions := Use(s.regions, i, true)), i, pages, mapped);
             && chunk <= PagesOf(s.regions, false) - whole
             && PagesOf(s'.regions, true) == PagesOf(s.regions, true) + whole - (whole - block) + chunk
             && PagesOf(s'.regions, false) == PagesOf(s.regions, false) - whole - chunk + (whole - block)
    ensures Reserved(s, s', i, pages, mapped)
  {
    ShorterRegion(s.regions[i], s'.regions[i]);
    ReserveSets(PagesOf(s.regions, true), PagesOf(s.regions, false), RegionPages(s.regions[i]),
      RegionPages(s'.regions[i]),
                ChunkPages(s.(regions := Use(s.regions, i, true)), i, pages, mapped));
  }

  lemma ShorterRegion(r: Region, q: Region)
    requires q.first == r.first && q.pages <= r.pages
    ensures RegionPages(q) <= RegionPages(r)
  {
    assert forall p: nat :: q.Has(p) ==> r.Has(p);
  }

  lemma ReserveSets(used: set<nat>, free: set<nat>, whole: set<nat>, block: set<nat>, chunk: set<nat>)
    requires whole <= free && whole !! used && block <= whole && chunk <= free - whole
    ensures used + whole - (whole - block) + chunk == used + block + chunk
    ensures free - whole - chunk + (whole - block) == free - block - chunk
    ensures block !! chunk && block + chunk <= free
  {
  }

  lemma SplitSize(s: State, i: nat, pages: nat, perChunk: nat, mapped: bool)
    requires i < |s.regions| && pages <= s.regions[i].pages
    ensures var t := Split(s.(regions := Use(s.regions, i, true)), i, pages, perChunk, mapped).regions;
            i < |t| && (t[i].pages == pages <==> HeaderToSpare(s, i, pages, mapped))
  {
    NewHeaderKeepsRegion(s.(regions := Use(s.regions, i, true)), i, perChunk, mapped);
  }

  /** `get_mem_area`: it fails exactly when no free region is long enough. */
  lemma GetReserves(s: State, len: nat, perChunk: nat, mapped: bool)
    requires Inv(s) && 1 <= perChunk
    ensures var (s', r, first) := Get(s, len, perChunk, mapped);
            var i := FirstFit(s.regions, RoundUp(len));
            if exists j :: 0 <= j < |s.regions| && !s.regions[j].inUse && s.regions[j].pages >= RoundUp(len)
            then r == PmmSuccess && i < |s.regions| && first == s.regions[i].first &&
              Reserved(s, s', i, RoundUp(len), mapped)
            else r == PmmNoMem && s' == s
  {
    var i := FirstFit(s.regions, RoundUp(len));
    if i < |s.regions| {
      ReserveKeeps(s, i, RoundUp(len), perChunk, mapped);
    }
  }

  /** `free_mem_area` moves exactly the pages of one header from used to free. */
  lemma FreeReturns(s: State, addr: nat, len: nat)
    requires Inv(s) && Free(s, addr, len).Freed?
    ensures var s', i := Free(s, addr, len).s, Holder(s.regions, addr);
            && Inv(s') && i < |s.regions| && s.regions[i].inUse && addr / PAGE in RegionPages(s.regions[i])
            && RegionPages(s.regions[i]) <= PagesOf(s.regions, true)
            && PagesOf(s'.regions, true) == PagesOf(s.regions, true) - RegionPages(s.regions[i])
            && PagesOf(s'.regions, false) == PagesOf(s.regions, false) + RegionPages(s.regions[i])
  {
    var i := Holder(s.regions, addr);
    CoalesceKeeps(s.regions, i);
    RegionPagesHeld(s.regions, i);
  }

  // ---------- Round trip ----------

  /** The address lies in the region. */
  predicate AddressIn(r: Region, addr: nat) { r.first * 4096 <= addr < (r.first + r.pages) * 4096 }

  /** Every way `free_mem_area` can end, and exactly when: the header that holds the address decides.
      The end of the range is a 32-bit sum, and it is compared before the header is known to be used. */
  lemma FreeOutcomes(s: State, addr: nat, len: nat)
    requires Inv(s)
    ensures forall i :: 0 <= i < |s.regions| && AddressIn(s.regions[i], addr) ==>
              var past := (s.regions[i].first + s.regions[i].pages) * 4096 < (addr + len) % 0x1_0000_0000;
              && (Free(s, addr, len).Abort? <==> past)
              && (Free(s, addr, len).Freed? <==> !past && s.regions[i].inUse)
              && (Free(s, addr, len).Invalid? <==> !past && !s.regions[i].inUse)
    ensures (forall i :: 0 <= i < |s.regions| ==> !AddressIn(s.regions[i], addr)) ==> Free(s, addr, len) == Invalid
  {
    forall i | 0 <= i < |s.regions| && AddressIn(s.regions[i], addr)
      ensures Holder(s.regions, addr) == i
    {
      HolderOf(s.regions, addr, i);
    }
    InRegion(s.regions, addr);
    hide Inv, Holder, Coalesce;
  }

  lemma HolderOf(regions: seq<Region>, addr: nat, i: nat)
    requires Sound(regions) && i < |regions| && AddressIn(regions[i], addr)
    ensures Holder(regions, addr) == i
  {
    assert regions[i].Has(addr / PAGE);
    var j := Holder(regions, addr);
    if j < i {
      OneHolder(regions, j, i, addr / PAGE);
    }
  }

  lemma InRegion(regions: seq<Region>, addr: nat)
    ensures var i := Holder(regions, addr); i < |regions| ==> AddressIn(regions[i], addr)
  {
  }

  /** The state with nothing changed but the region that a new header took for its chunk while the
      region at `i` was reserved. */
  function Grown(s: State, i: nat, perChunk: nat, mapped: bool): State
    requires i < |s.regions|
  {
    var j := FirstFit(Use(s.regions, i, true), 0);
    if NeedsChunk(s) && j < |s.regions| && mapped then State(Use(s.regions, j, true), s.headers + perChunk) else s
  }

  /** The same, if a header was needed. */
  function OnlyChunkTaken(s: State, i: nat, pages: nat, perChunk: nat, mapped: bool): State
    requires i < |s.regions|
  {
    if s.regions[i].pages == pages then s else Grown(s, i, perChunk, mapped)
  }

  lemma {:induction false} HolderIs(regions: seq<Region>, i: nat)
    requires Sound(regions) && i < |regions| && regions[i].pages > 0
    ensures Holder(regions, regions[i].first * PAGE) == i
  {
    var a := regions[i].first * PAGE;
    assert a / PAGE == regions[i].first;
    OnlyHolder(regions, i, a / PAGE);
    var k := Holder(regions, a);
  }

  lemma CoalesceUndoesCut(regions: seq<Region>, t: seq<Region>, i: nat, pages: nat)
    requires Coalesced(regions) && i < |regions| && !regions[i].inUse && pages < regions[i].pages
    requires |t| == |regions| && t[i] == regions[i].(inUse := true)
    requires forall j :: 0 <= j < |t| && j != i ==> t[j] == regions[j] || t[j] == regions[j].(inUse := true)
    ensures Coalesce(Use(Cut(t, i, pages), i, false), i) == Use(t, i, false)
  {
    var u := Use(Cut(t, i, pages), i, false);
    assert MergeAt(u, i) == Use(t, i, false);
    assert i > 0 ==> regions[i - 1].inUse || regions[i - 1].End() != regions[i].first;
  }

  lemma CoalesceUndoesUse(regions: seq<Region>, t: seq<Region>, i: nat)
    requires Coalesced(regions) && i < |regions| && !regions[i].inUse
    requires |t| == |regions| && t[i] == regions[i].(inUse := true)
    requires forall j :: 0 <= j < |t| && j != i ==> t[j] == regions[j] || t[j] == regions[j].(inUse := true)
    ensures Coalesce(Use(t, i, false), i) == Use(t, i, false)
  {
    assert i > 0 ==> regions[i - 1].inUse || regions[i - 1].End() != regions[i].first;
    assert i + 1 < |t| ==> regions[i + 1].inUse || regions[i].End() != regions[i + 1].first;
  }

  lemma CoalesceUndoesSplit(s: State, i: nat, pages: nat, perChunk: nat, mapped: bool)
    requires Coalesced(s.regions) && i < |s.regions| && !s.regions[i].inUse && pages <= s.regions[i].pages
    ensures var s' := Split(s.(regions := Use(s.regions, i, true)), i, pages, perChunk, mapped);
            && i < |s'.regions|
            && s'.(regions := Coalesce(Use(s'.regions, i, false), i)) == OnlyChunkTaken(s, i, pages, perChunk, mapped)
  {
    var s1 := s.(regions := Use(s.regions, i, true));
    NewHeaderKeepsRegion(s1, i, perChunk, mapped);
    NewHeaderShape(s, i, perChunk, mapped);
    var (t, ok) := NewHeader(s1, perChunk, mapped);
    UseTwice(s.regions, i);
    hide NewHeader, Use, Coalesce, Coalesced, Cut, FirstFit;
    if s.regions[i].pages == pages {
      CoalesceUndoesUse(s.regions, s1.regions, i);
    } else if ok {
      CoalesceUndoesCut(s.regions, t.regions, i, pages);
    } else {
      CoalesceUndoesUse(s.regions, t.regions, i);
    }
  }

  lemma UseTwice(regions: seq<Region>, i: nat)
    requires i < |regions| && !regions[i].inUse
    ensures |Use(regions, i, true)| == |regions| && Use(Use(regions, i, true), i, false) == regions
    ensures Use(regions, i, true)[i] == regions[i].(inUse := true)
    ensures forall j :: 0 <= j < |regions| && j != i ==> Use(regions, i, true)[j] == regions[j]
  {
  }

  /** What growing the pool does to the regions while the one at `i` is reserved. */
  lemma NewHeaderShape(s: State, i: nat, perChunk: nat, mapped: bool)
    requires i < |s.regions| && !s.regions[i].inUse
    ensures var (t, ok) := NewHeader(s.(regions := Use(s.regions, i, true)), perChunk, mapped);
            && |t.regions| == |s.regions| && t.regions[i] == s.regions[i].(inUse := true)
            && (forall j :: 0 <= j < |t.regions| && j != i ==>
                  t.regions[j] == s.regions[j] || t.regions[j] == s.regions[j].(inUse := true))
            && State(Use(t.regions, i, false), t.headers) == (if ok then Grown(s, i, perChunk, mapped) else s)
  {
    var s1 := s.(regions := Use(s.regions, i, true));
    UseTwice(s.regions, i);
    var j := FirstFit(s1.regions, 0);
    if NeedsChunk(s) && j < |s.regions| && mapped {
      assert Use(Use(s1.regions, j, true), i, false) == Use(s.regions, j, true);
    }
  }

  /** Freeing what was just reserved restores the region list exactly, apart from the one region
      that may have become a chunk of headers. */
  lemma FreeUndoesGet(s: State, len: nat, perChunk: nat, mapped: bool)
    requires Inv(s) && 1 <= perChunk && len < SPACE && RoundUp(len) > 0
    requires Get(s, len, perChunk, mapped).1 == PmmSuccess
    ensures var (s', r, first) := Get(s, len, perChunk, mapped);
            Free(s', first * PAGE, len)
            == Freed(OnlyChunkTaken(s, FirstFit(s.regions, RoundUp(len)), RoundUp(len), perChunk, mapped))
  {
    var s' := Get(s, len, perChunk, mapped).0;
    var i := FirstFit(s.regions, RoundUp(len));
    GetReserves(s, len, perChunk, mapped);
    CoalesceUndoesSplit(s, i, RoundUp(len), perChunk, mapped);
    hide Split, Coalesce, OnlyChunkTaken, Reserved;
    FreeBlock(s', i, len);
  }

  /** Freeing a header by the address of its first page. */
  lemma FreeBlock(s: State, i: nat, len: nat)
    requires Sound(s.regions) && i < |s.regions| && s.regions[i].inUse
    requires len < SPACE && 0 < RoundUp(len) <= s.regions[i].pages
    ensures Free(s, s.regions[i].first * PAGE, len) == Freed(s.(regions := Coalesce(Use(s.regions, i, false), i)))
  {
    HolderIs(s.regions, i);
    LenFits(len);
    assert s.regions[i].End() < PAGES;
  }

  lemma LenFits(len: nat)
    requires len < SPACE && RoundUp(len) > 0
    ensures len <= RoundUp(len) * PAGE && (RoundUp(len) - 1) * PAGE < len
  {
  }

  // ---------- Where the code does not do what its callers expect ----------

  /** The page returned belongs to the caller exactly when the length does not round to zero, or when
      there was no header for the rest; otherwise it is still free, for the next caller to get.  Zero
      and lengths over 2^32 - 4096 round to zero. */
  lemma ReturnedPageIsReserved(s: State, len: nat, perChunk: nat, mapped: bool)
    requires Inv(s) && 1 <= perChunk && len < SPACE && Get(s, len, perChunk, mapped).1 == PmmSuccess
    ensures var (s', _, first) := Get(s, len, perChunk, mapped);
            var i := FirstFit(s.regions, RoundUp(len));
            && i < |s'.regions|
            && (if RoundUp(len) > 0 || !HeaderToSpare(s, i, 0, mapped) then first in RegionPages(s'.regions[i])
                else first in PagesOf(s'.regions, false))
            && (RoundUp(len) > 0 <==> 0 < len <= SPACE - PAGE)
  {
    RoundUpIsZero(len);
    var i := FirstFit(s.regions, RoundUp(len));
    ReserveKeeps(s, i, RoundUp(len), perChunk, mapped);
    RegionPagesHeld(s.regions, i);
    FirstPageIs(s, Reserve(s, i, RoundUp(len), perChunk, mapped), i, RoundUp(len), mapped);
  }

  lemma FirstPageIs(s: State, s': State, i: nat, pages: nat, mapped: bool)
    requires Inv(s) && i < |s.regions| && !s.regions[i].inUse && Reserved(s, s', i, pages, mapped)
    requires RegionPages(s.regions[i]) <= PagesOf(s.regions, false)
    ensures if pages > 0 || !HeaderToSpare(s, i, pages, mapped) then s.regions[i].first in RegionPages(s'.regions[i])
            else s.regions[i].first in PagesOf(s'.regions, false)
  {
    var p, r := s.regions[i].first, s'.regions[i];
    assert p in RegionPages(r) <==> r.Has(p);
    assert s.regions[i].Has(p);
    ChunkIsElsewhere(s, i, pages, mapped);
  }

  lemma ChunkIsElsewhere(s: State, i: nat, pages: nat, mapped: bool)
    requires Inv(s) && i < |s.regions|
    ensures ChunkPages(s.(regions := Use(s.regions, i, true)), i, pages, mapped) !! RegionPages(s.regions[i])
  {
    var t := Use(s.regions, i, true);
    var j := FirstFit(t, 0);
    if j < |t| && j != i {
      forall p | p in RegionPages(s.regions[i]) ensures p !in RegionPages(s.regions[j]) {
        OnlyHolder(s.regions, i, p);
      }
    }
  }

  lemma RoundUpIsZero(len: nat)
    requires len < SPACE
    ensures RoundUp(len) > 0 <==> 0 < len <= SPACE - PAGE
  {
  }

  /** A reservation of length 0 succeeds and returns page 1, which it does not reserve. */
  lemma ZeroLengthReservesNothing()
    ensures Inv(State([Region(1, 2, false)], 10))
    ensures Get(State([Region(1, 2, false)], 10), 0, 5, true)
            == (State([Region(1, 0, true), Region(1, 2, false)], 10), PmmSuccess, 1)
  {
    var s := State([Region(1, 2, false)], 10);
    assert FirstFit(s.regions, 0) == 0;
    assert Use(s.regions, 0, true) == [Region(1, 2, true)];
    CutExample();
  }

  lemma CutExample()
    ensures Split(State([Region(1, 2, true)], 10), 0, 0, 5, true)
            == State([Region(1, 0, true), Region(1, 2, false)], 10)
  {
    assert Cut([Region(1, 2, true)], 0, 0) == [Region(1, 0, true), Region(1, 2, false)];
  }

  /** Reserving at an address takes pages from the start of the header found, whatever the address:
      for a page-aligned address the bytes asked for are reserved exactly when the address is that
      start, or when the whole region had to be handed out and reaches far enough. */
  lemma GetAtCovers(s: State, addr: nat, len: nat, perChunk: nat, mapped: bool)
    requires Inv(s) && 1 <= perChunk && addr % PAGE == 0 && 0 < len
    requires GetAt(s, addr, len, perChunk, mapped).1 == PmmSuccess
    ensures var s', i := GetAt(s, addr, len, perChunk, mapped).0, HeaderFor(s.regions, addr);
            && Reserved(s, s', i, RoundUp(len), mapped)
            && ((forall p :: addr / PAGE <= p <= (addr + len - 1) / PAGE ==> p in RegionPages(s'.regions[i])) <==>
                  || addr == s.regions[i].first * PAGE
                  || (!HeaderToSpare(s, i, RoundUp(len), mapped) && addr + len <= s.regions[i].End() * PAGE))
  {
    var i := HeaderFor(s.regions, addr);
    RoundUpFits(len, s.regions[i].pages);
    ReserveKeeps(s, i, RoundUp(len), perChunk, mapped);
    UnsplitSize(s.(regions := Use(s.regions, i, true)), i, RoundUp(len), perChunk, mapped);
    var s' := GetAt(s, addr, len, perChunk, mapped).0;
    BlockCovers(s'.regions[i], addr, len);
    hide RegionPages;
    if s'.regions[i].pages == RoundUp(len) {
      ShortBlockCovers(s'.regions[i], addr, len);
    }
  }

  lemma BlockCovers(r: Region, addr: nat, len: nat)
    requires addr % PAGE == 0 && 0 < len && r.first * PAGE <= addr
    ensures (forall p :: addr / PAGE <= p <= (addr + len - 1) / PAGE ==>
        p in RegionPages(r)) <==> addr + len <= r.End() * PAGE
  {
    var last := (addr + len - 1) / PAGE;
    assert last in RegionPages(r) <==> r.Has(last);
  }

  lemma ShortBlockCovers(r: Region, addr: nat, len: nat)
    requires addr % PAGE == 0 && 0 < len && r.first * PAGE <= addr && r.pages * PAGE < len + PAGE &&
        len <= r.pages * PAGE
    ensures addr + len <= r.End() * PAGE <==> addr == r.first * PAGE
  {
  }

  lemma UnsplitSize(s: State, i: nat, pages: nat, perChunk: nat, mapped: bool)
    requires i < |s.regions| && s.regions[i].inUse && pages <= s.regions[i].pages
    ensures var t := Split(s, i, pages, perChunk, mapped).regions;
            i < |t| && (t[i].pages == pages || t[i].pages == s.regions[i].pages)
  {
    NewHeaderKeepsRegion(s, i, perChunk, mapped);
  }

  /** Reserving at an address succeeds exactly if the first header that reaches to the address, or ends
      at it, is free and long enough; it takes that header from its start. */
  lemma GetAtSucceeds(s: State, addr: nat, len: nat, perChunk: nat, mapped: bool)
    requires Inv(s) && 1 <= perChunk
    ensures var (s', r) := GetAt(s, addr, len, perChunk, mapped);
            && (r == PmmSuccess <==>
                  exists i: nat :: FirstToReach(s.regions, addr, i) && !s.regions[i].inUse
                      && s.regions[i].pages * 4096 >= len)
            && (forall i: nat :: r == PmmSuccess && FirstToReach(s.regions, addr, i) ==>
                  Reserved(s, s', i, RoundUp(len), mapped))
            && (r != PmmSuccess ==> r == PmmNoMem && s' == s)
  {
    GetAtKeeps(s, addr, len, perChunk, mapped);
    FirstReaching(s.regions, addr);
    hide FirstToReach, Inv, Reserve, Reserved, HeaderFor;
  }

  /** The region at `i` reaches to the address, or ends at it, and none before it does. */
  predicate FirstToReach(regions: seq<Region>, addr: nat, i: nat) {
    && i < |regions| && ReachesTo(regions[i], addr)
    && forall j :: 0 <= j < i ==> !ReachesTo(regions[j], addr)
  }

  lemma FirstReaching(regions: seq<Region>, addr: nat)
    ensures forall i: nat :: FirstToReach(regions, addr, i) <==> i < |regions| && i == HeaderFor(regions, addr)
  {
    var h := HeaderFor(regions, addr);
    assert h < |regions| ==> ReachesTo(regions[h], addr);
    assert forall j :: 0 <= j < h ==> !ReachesTo(regions[j], addr);
  }

  predicate ReachesTo(r: Region, addr: nat) { r.first * 4096 <= addr <= (r.first + r.pages) * 4096 }

  /** One page out of two, with two headers left, with one left and a chunk for more, and without it. */
  lemma PoolGrowsWithOneLeft()
    ensures var regions := [Region(1, 2, false), Region(5, 3, false), Region(9, 1, false)];
            && Get(State(regions, 5), 1, 7, true)
               == (State([Region(1, 1, true), Region(2, 1, false)] + regions[1..], 5), PmmSuccess, 1)
            && Get(State(regions, 4), 1, 7, true)
               == (State([Region(1, 1, true), Region(2, 1, false), Region(5, 3, true), Region(9, 1, false)], 11),
                   PmmSuccess, 1)
            && Get(State(regions, 4), 1, 7, false) == (State([Region(1, 2, true)] + regions[1..], 4), PmmSuccess, 1)
  {
    var regions := [Region(1, 2, false), Region(5, 3, false), Region(9, 1, false)];
    var used := [Region(1, 2, true), Region(5, 3, false), Region(9, 1, false)];
    assert FirstFit(regions, 1) == 0 && Use(regions, 0, true) == used && FirstFit(used, 0) == 1;
    assert used == [Region(1, 2, true)] + regions[1..];
    assert Cut(used, 0, 1) == [Region(1, 1, true), Region(2, 1, false)] + regions[1..];
    var grown := [Region(1, 2, true), Region(5, 3, true), Region(9, 1, false)];
    assert Use(used, 1, true) == grown;
    assert Cut(grown, 0, 1) == [Region(1, 1, true), Region(2, 1, false), Region(5, 3, true), Region(9, 1, false)];
  }

  /** The second page of a free region is asked for, and the first one is reserved. */
  lemma GetAtMissesItsAddress()
    ensures var s := State([Region(1, 3, false)], 10);
            var (s', r) := GetAt(s, 2 * PAGE, PAGE, 5, true);
            Inv(s) && r == PmmSuccess && 2 in PagesOf(s'.regions, false)
  {
    var s := State([Region(1, 3, false)], 10);
    var (s', r) := GetAt(s, 2 * PAGE, PAGE, 5, true);
    assert HeaderFor(s.regions, 2 * PAGE) == 0;
    assert s'.regions == [Region(1, 1, true), Region(2, 2, false)];
    assert s'.regions[1].Has(2);
  }

  // ---------- Whole runs ----------

  datatype Op =
    | GetAny(len: nat, mapped: bool)
    | GetFixed(addr: nat, len: nat, mapped: bool)
    | Release(addr: nat, len: nat)

  datatype Outcome = Running(s: State) | Halted

  ghost function AllPages(s: State): set<nat> { PagesOf(s.regions, true) + PagesOf(s.regions, false) }

  /** One call; an invalid free that the manager refuses leaves the state as it was. */
  ghost function Exec(s: State, op: Op, perChunk: nat): (r: Outcome)
    requires Inv(s) && 1 <= perChunk
    ensures r.Running? ==> Inv(r.s) && AllPages(r.s) == AllPages(s)
  {
    match op
    case GetAny(len, mapped) =>
      GetKeepsAll(s, len, perChunk, mapped);
      Running(Get(s, len, perChunk, mapped).0)
    case GetFixed(addr, len, mapped) =>
      GetAtKeepsAll(s, addr, len, perChunk, mapped);
      Running(GetAt(s, addr, len, perChunk, mapped).0)
    case Release(addr, len) =>
      FreeKeepsAll(s, addr, len);
      match Free(s, addr, len)
      case Freed(s') => Running(s')
      case Invalid => Running(s)
      case Abort => Halted
  }

  lemma GetKeepsAll(s: State, len: nat, perChunk: nat, mapped: bool)
    requires Inv(s) && 1 <= perChunk
    ensures var s' := Get(s, len, perChunk, mapped).0; Inv(s') && AllPages(s') == AllPages(s)
  {
    GetReserves(s, len, perChunk, mapped);
    hide Get, PagesOf, RegionPages, ChunkPages, Coalesced, Sound;
  }

  lemma GetAtKeepsAll(s: State, addr: nat, len: nat, perChunk: nat, mapped: bool)
    requires Inv(s) && 1 <= perChunk
    ensures var s' := GetAt(s, addr, len, perChunk, mapped).0; Inv(s') && AllPages(s') == AllPages(s)
  {
    GetAtKeeps(s, addr, len, perChunk, mapped);
    hide GetAt, PagesOf, RegionPages, ChunkPages, Coalesced, HeaderFor;
  }

  lemma FreeKeepsAll(s: State, addr: nat, len: nat)
    requires Inv(s)
    ensures Free(s, addr, len).Freed? ==> Inv(Free(s, addr, len).s) && AllPages(Free(s, addr, len).s) == AllPages(s)
  {
    if Free(s, addr, len).Freed? {
      FreeReturns(s, addr, len);
      hide Free, PagesOf, RegionPages, Coalesced, Holder;
    }
  }

  lemma GetAtKeeps(s: State, addr: nat, len: nat, perChunk: nat, mapped: bool)
    requires Inv(s) && 1 <= perChunk
    ensures var (s', r) := GetAt(s, addr, len, perChunk, mapped);
            if r == PmmSuccess then HeaderFor(s.regions, addr) < |s.regions| &&
              Reserved(s, s', HeaderFor(s.regions, addr), RoundUp(len), mapped)
            else s' == s
  {
    var i := HeaderFor(s.regions, addr);
    if GetAt(s, addr, len, perChunk, mapped).1 == PmmSuccess {
      RoundUpFits(len, s.regions[i].pages);
      ReserveKeeps(s, i, RoundUp(len), perChunk, mapped);
    }
  }

  /** Conservation: whatever is reserved and freed, in any order, and however often the pool of
      headers grows in the middle of a split, the headers cover exactly the pages they covered at
      boot, no page twice, with nothing left to merge and a header to spare. */
  ghost function After(boot: State, ops: seq<Op>, perChunk: nat): (r: Outcome)
    requires Inv(boot) && 1 <= perChunk
    ensures r.Running? ==> Inv(r.s) && AllPages(r.s) == AllPages(boot)
  {
    if ops == [] then Running(boot)
    else
      match After(boot, ops[..|ops| - 1], perChunk)
      case Running(s) => Exec(s, ops[|ops| - 1], perChunk)
      case Halted => Halted
  }
}
