/** The kernel heap: `malloc` and `free` over header records that lie in the pages they describe.

    The header records are kept in a map from addresses to records, so that the pointer
    arithmetic of the allocator is address arithmetic here; 0 is the null pointer.  `Cell`s are
    the abstract view of one header and the payload behind it. */
module HeapModel {
  import opened Machine

  const HEADER: nat := 16     // sizeof(Header) on the 32-bit targets
  const MAX_PAYLOAD: nat := 4080  // of a header that spans a page of DEFAULT_MEMRESERVE_SIZE bytes

  datatype Header = Header(next: nat, prev: nat, len: nat, inUse: bool, start: bool)

  datatype Cell = Cell(addr: nat, len: nat, inUse: bool, start: bool) {
    function Payload(): nat { addr + HEADER }

    function End(): nat { addr + HEADER + len }

    predicate Fits(size: nat) { !inUse && size <= len }
  }

  /** The calls the allocator makes to the memory manager below it. */
  datatype PageCall = Got(page: nat) | Returned(page: nat, bytes: nat)

  datatype MallocResult = Block(ptr: nat) | OutOfMemory

  function RoundUp(size: nat): nat {
    if size % HEADER == 0 then size else size + HEADER - size % HEADER
  }

  function PageOf(a: nat): nat { a - a % PAGE }

  // ---------- The invariant of the header list ----------

  ghost predicate CellOk(c: Cell) {
    && 0 < c.addr && c.addr % HEADER == 0 && c.len % HEADER == 0
    && c.End() <= PageOf(c.addr) + PAGE
    && (c.start <==> c.addr % PAGE == 0)
  }

  ghost predicate ClosesPage(c: Cell) { c.End() == PageOf(c.addr) + PAGE }

  /** How the cell at `i` relates to the one before it in the list. */
  ghost predicate Joined(cells: seq<Cell>, i: nat)
    requires i < |cells|
  {
    if cells[i].start then i == 0 || ClosesPage(cells[i - 1])
    else i > 0 && cells[i].addr == cells[i - 1].End()
  }

  /** The list is a concatenation of pages, each of them completely tiled by its cells. */
  ghost predicate Tiled(cells: seq<Cell>) {
    && (forall i :: 0 <= i < |cells| ==> CellOk(cells[i]))
    && (forall i :: 0 <= i < |cells| ==> Joined(cells, i))
    && (cells != [] ==> ClosesPage(cells[|cells| - 1]))
    && (forall i, j :: 0 <= i < j < |cells| && cells[i].start && cells[j].start ==> cells[i].addr != cells[j].addr)
  }

  ghost predicate Coalesced(cells: seq<Cell>) {
    forall i :: 0 < i < |cells| && !cells[i].start ==> cells[i - 1].inUse || cells[i].inUse
  }

  ghost predicate WholePageFree(c: Cell) { c.start && !c.inUse && c.len == MAX_PAYLOAD }

  ghost predicate NoFreePage(cells: seq<Cell>) {
    forall i :: 0 <= i < |cells| ==> !WholePageFree(cells[i])
  }

  ghost function Pages(cells: seq<Cell>): set<nat> {
    set i | 0 <= i < |cells| && cells[i].start :: cells[i].addr
  }

  /** The pages held after the given calls, or None if a page was handed out twice, or was
      returned without being held, or not returned whole. */
  datatype Held = None | Some(pages: set<nat>)

  ghost function HeldPages(calls: seq<PageCall>): Held {
    if calls == [] then Some({})
    else
      match (HeldPages(calls[..|calls| - 1]), calls[|calls| - 1])
      case (Some(h), Got(p)) => if p in h then None else Some(h + {p})
      case (Some(h), Returned(p, n)) => if p in h && n == PAGE then Some(h - {p}) else None
      case (None, _) => None
  }

  /** The state of the heap between calls. */
  datatype State = State(cells: seq<Cell>, calls: seq<PageCall>)

  ghost predicate Inv(s: State) {
    && Tiled(s.cells) && Coalesced(s.cells) && NoFreePage(s.cells)
    && HeldPages(s.calls) == Some(Pages(s.cells))
  }

  /** What the memory manager promises of the page it hands out. */
  ghost predicate FreshPage(cells: seq<Cell>, page: nat) {
    && 0 < page && page % PAGE == 0
    && (forall i :: 0 <= i < |cells| ==> PageOf(cells[i].addr) != page)
  }

  // ---------- What malloc and free do to the list ----------

  function SplitAt(cells: seq<Cell>, i: nat, size: nat): seq<Cell>
    requires i < |cells| && RoundUp(size) + HEADER <= cells[i].len
  {
    var c, k := cells[i], RoundUp(size);
    cells[..i] + [c.(len := k), Cell(c.addr + k + HEADER, c.len - k - HEADER, false, false)] + cells[i + 1..]
  }

  function MergeAt(cells: seq<Cell>, i: nat): seq<Cell>
    requires i + 1 < |cells|
  {
    cells[..i] + [cells[i].(len := cells[i].len + cells[i + 1].len + HEADER)] + cells[i + 2..]
  }

  /** Index of the first cell that fits, or the length of the list. */
  function FirstFit(cells: seq<Cell>, size: nat): (i: nat)
    ensures i <= |cells|
    ensures i < |cells| ==> cells[i].Fits(size)
    ensures forall j :: 0 <= j < i ==> !cells[j].Fits(size)
  {
    if cells == [] then 0
    else if cells[0].Fits(size) then 0
    else
      var i := FirstFit(cells[1..], size);
      assert forall j :: 1 <= j < i + 1 ==> cells[j] == cells[1..][j - 1];
      i + 1
  }

  /** A page fresh from the memory manager, already split if the request leaves enough of it. */
  function NewPage(page: nat, size: nat): seq<Cell> {
    var whole := [Cell(page, MAX_PAYLOAD, false, true)];
    if size < MAX_PAYLOAD - HEADER then SplitAt(whole, 0, size) else whole
  }

  /** Claim the cell at `i` for `size` bytes. */
  function TakeAt(cells: seq<Cell>, i: nat, size: nat): seq<Cell>
    requires i < |cells| && size <= cells[i].len && cells[i].len % HEADER == 0
  {
    var s := if cells[i].len > size + HEADER then SplitAt(cells, i, size) else cells;
    s[i := s[i].(inUse := true)]
  }

  /** The list in which malloc finds its cell. */
  function Searched(cells: seq<Cell>, size: nat, page: nat): seq<Cell> {
    if FirstFit(cells, size) < |cells| then cells else cells + NewPage(page, size)
  }

  ghost predicate Mallocable(s: State, size: nat, page: nat) {
    FirstFit(s.cells, size) < |s.cells| || (size <= MAX_PAYLOAD && FreshPage(s.cells, page))
  }

  function MallocState(s: State, size: nat, page: nat): State
    requires Tiled(s.cells) && Mallocable(s, size, page)
  {
    var i := FirstFit(s.cells, size);
    NewPageFits(page, size);
    State(TakeAt(Searched(s.cells, size, page), i, size),
          if i < |s.cells| then s.calls else s.calls + [Got(page)])
  }

  lemma NewPageFits(page: nat, size: nat)
    ensures size <= MAX_PAYLOAD ==> NewPage(page, size)[0].Fits(size) && NewPage(page, size)[0].len <= size + HEADER
    ensures forall i :: 0 <= i < |NewPage(page, size)| ==> NewPage(page, size)[i].len % HEADER == 0
  {
  }

  predicate JoinsNext(cells: seq<Cell>, i: nat)
    requires i < |cells|
  {
    i + 1 < |cells| && !cells[i + 1].inUse && !cells[i + 1].start && cells[i + 1].addr == cells[i].End()
  }

  predicate JoinsPrev(cells: seq<Cell>, i: nat)
    requires i < |cells|
  {
    !cells[i].start && i > 0 && !cells[i - 1].inUse && cells[i].addr == cells[i - 1].End()
  }

  /** The list once the cell at `i` is free and merged with its free neighbours, and the index of
      the merged cell. */
  function Coalesce(cells: seq<Cell>, i: nat): (r: (seq<Cell>, nat))
    requires i < |cells|
    ensures r.1 < |r.0|
  {
    var c0 := cells[i := cells[i].(inUse := false)];
    var c1 := if JoinsNext(c0, i) then MergeAt(c0, i) else c0;
    if JoinsPrev(c1, i) then (MergeAt(c1, i - 1), i - 1) else (c1, i)
  }

  function FreeState(s: State, i: nat): State
    requires i < |s.cells|
  {
    var (c, k) := Coalesce(s.cells, i);
    Return(c, k, s.calls)
  }

  /** A header that spans a whole page leaves the list, and its page goes back. */
  function Return(cells: seq<Cell>, i: nat, calls: seq<PageCall>): State
    requires i < |cells|
  {
    if cells[i].start && cells[i].len == MAX_PAYLOAD then
      State(cells[..i] + cells[i + 1..], calls + [Returned(cells[i].addr, cells[i].len + HEADER)])
    else State(cells, calls)
  }

  // ---------- Tiling: what it gives ----------

  function HeadOf(cells: seq<Cell>, k: nat): (h: nat)
    requires k < |cells|
    ensures h <= k
  {
    if cells[k].start || k == 0 then k else HeadOf(cells, k - 1)
  }

  lemma {:induction false} HeadOfOwnsPage(cells: seq<Cell>, k: nat)
    requires Tiled(cells) && k < |cells|
    ensures cells[HeadOf(cells, k)].start
    ensures cells[HeadOf(cells, k)].addr == PageOf(cells[k].addr)
    ensures forall j :: HeadOf(cells, k) < j <= k ==> !cells[j].start
    decreases k
  {
    assert Joined(cells, k) && CellOk(cells[k]);
    if cells[k].start {
      assert PageOf(cells[k].addr) == cells[k].addr;
    } else {
      assert CellOk(cells[k - 1]);
      MergeCell(cells[k - 1], cells[k]);
      hide CellOk, PageOf;
      HeadOfOwnsPage(cells, k - 1);
    }
  }

  lemma {:induction false} RunAscends(cells: seq<Cell>, i: nat, j: nat)
    requires Tiled(cells) && i < j < |cells|
    requires forall k :: i < k <= j ==> !cells[k].start
    ensures cells[i].End() <= cells[j].addr
    decreases j
  {
    assert Joined(cells, j);
    if i < j - 1 {
      RunAscends(cells, i, j - 1);
    }
  }

  /** No two headers or payloads overlap anywhere in the list. */
  lemma Disjoint(cells: seq<Cell>, i: nat, j: nat)
    requires Tiled(cells) && i < j < |cells|
    ensures cells[i].End() <= cells[j].addr || cells[j].End() <= cells[i].addr
  {
    HeadOfOwnsPage(cells, i);
    HeadOfOwnsPage(cells, j);
    if PageOf(cells[i].addr) == PageOf(cells[j].addr) {
      assert HeadOf(cells, i) == HeadOf(cells, j);
      RunAscends(cells, i, j);
    } else {
      TiledAt(cells, i);
      TiledAt(cells, j);
      hide Tiled, Joined, ClosesPage, HeadOf;
      PagesApart(cells[i], cells[j]);
    }
  }

  lemma PagesApart(c: Cell, d: Cell)
    requires CellOk(c) && CellOk(d) && PageOf(c.addr) != PageOf(d.addr)
    ensures c.End() <= d.addr || d.End() <= c.addr
  {
    CellOkIs(c);
    CellOkIs(d);
    EndIs(c);
    EndIs(d);
    hide CellOk;
    PageBounds(c.addr);
    PageBounds(d.addr);
    if PageOf(c.addr) <= d.addr < PageOf(c.addr) + PAGE {
      PageIs(d.addr, PageOf(c.addr));
    }
    if PageOf(d.addr) <= c.addr < PageOf(d.addr) + PAGE {
      PageIs(c.addr, PageOf(d.addr));
    }
  }

  lemma DistinctAddresses(cells: seq<Cell>)
    requires Tiled(cells)
    ensures forall i, j :: 0 <= i < j < |cells| ==> cells[i].addr != cells[j].addr
  {
    forall i, j | 0 <= i < j < |cells| ensures cells[i].addr != cells[j].addr {
      Disjoint(cells, i, j);
    }
  }

  function Footprint(cells: seq<Cell>): nat {
    if cells == [] then 0 else cells[0].len + HEADER + Footprint(cells[1..])
  }

  lemma {:induction false} RunFootprint(cells: seq<Cell>, h: nat, e: nat)
    requires Tiled(cells) && h < e <= |cells|
    requires forall k :: h < k < e ==> !cells[k].start
    ensures Footprint(cells[h..e]) == cells[e - 1].End() - cells[h].addr
    decreases e - h
  {
    assert cells[h..e][0] == cells[h] && cells[h..e][1..] == cells[h + 1..e];
    if h + 1 < e {
      RunFootprint(cells, h + 1, e);
      assert Joined(cells, h + 1);
    }
  }

  /** The headers and payloads of one page add up to exactly the page. */
  lemma PageIsTiled(cells: seq<Cell>, h: nat, e: nat)
    requires Tiled(cells) && h < e <= |cells|
    requires cells[h].start && (forall k :: h < k < e ==> !cells[k].start)
    requires e < |cells| ==> cells[e].start
    ensures Footprint(cells[h..e]) == PAGE
  {
    hide *;
    RunFootprint(cells, h, e);
    HeadOfOwnsPage(cells, e - 1);
    HeadOfBound(cells, e - 1);
    TiledAt(cells, e - 1);
    if e < |cells| {
      TiledAt(cells, e);
      JoinedIs(cells, e);
    }
    ClosesPageIs(cells[e - 1]);
    EndIs(cells[e - 1]);
  }

  lemma HeadOfBound(cells: seq<Cell>, k: nat)
    requires k < |cells|
    ensures HeadOf(cells, k) <= k
  {
  }

  /** A list is empty exactly when nothing is allocated. */
  lemma EmptyIffNothingLive(s: State)
    requires Inv(s)
    ensures s.cells == [] <==> forall i :: 0 <= i < |s.cells| ==> !s.cells[i].inUse
  {
    var cells := s.cells;
    if cells != [] && !cells[0].inUse {
      assert CellOk(cells[0]) && Joined(cells, 0);
      assert !WholePageFree(cells[0]);
      assert cells[0].len < MAX_PAYLOAD;
      if |cells| > 1 {
        assert Joined(cells, 1);
        assert cells[1].inUse;
      }
    }
  }

  // ---------- Tiling: what keeps it ----------

  lemma PageBounds(a: nat)
    ensures PageOf(a) % PAGE == 0 && PageOf(a) <= a < PageOf(a) + PAGE && (a % PAGE == 0 <==> PageOf(a) == a)
  {
  }

  lemma PageIs(a: nat, page: nat)
    requires page % PAGE == 0 && page <= a < page + PAGE
    ensures PageOf(a) == page && (a % PAGE == 0 <==> a == page)
  {
  }

  lemma PageAbove(page: nat)
    requires page % PAGE == 0
    ensures (page + PAGE) % PAGE == 0
  {
  }

  lemma RoundUpIs(size: nat)
    ensures RoundUp(size) % HEADER == 0 && size <= RoundUp(size) < size + HEADER
  {
  }

  lemma CellOkIs(c: Cell)
    ensures CellOk(c) <==>
            && 0 < c.addr && c.addr % HEADER == 0 && c.len % HEADER == 0 && HEADER == 16
            && c.addr + HEADER + c.len <= PageOf(c.addr) + PAGE && (c.start <==> c.addr % PAGE == 0)
  {
  }

  lemma Multiples(a: nat, b: nat)
    requires a % 16 == 0 && b % 16 == 0
    ensures (a + b) % 16 == 0 && (a >= b ==> (a - b) % 16 == 0)
  {
  }

  lemma SplitCell(c: Cell, size: nat)
    requires CellOk(c) && RoundUp(size) + HEADER <= c.len
    ensures var k := RoundUp(size);
            var c', d := c.(len := k), Cell(c.addr + k + HEADER, c.len - k - HEADER, false, false);
            && CellOk(c') && CellOk(d) && d.addr == c'.End() && d.End() == c.End()
            && PageOf(d.addr) == PageOf(c.addr) && c.addr < d.addr < c.End()
  {
    var k := RoundUp(size);
    CellOkIs(c);
    CellOkIs(c.(len := k));
    CellOkIs(Cell(c.addr + k + HEADER, c.len - k - HEADER, false, false));
    hide CellOk, PageOf, RoundUp;
    RoundUpIs(size);
    PageBounds(c.addr);
    PageIs(c.addr + k + HEADER, PageOf(c.addr));
    Multiples(c.addr, k);
    Multiples(c.addr + k, HEADER);
    Multiples(c.len, k);
    Multiples(c.len - k, HEADER);
  }

  lemma SplitAddressIsNew(cells: seq<Cell>, i: nat, a: nat)
    requires Tiled(cells) && i < |cells| && cells[i].addr < a < cells[i].End()
    ensures forall j :: 0 <= j < |cells| ==> cells[j].addr != a
  {
    forall j | 0 <= j < |cells| ensures cells[j].addr != a {
      if j < i {
        Disjoint(cells, j, i);
      } else if i < j {
        Disjoint(cells, i, j);
      }
    }
  }

  /** Where the cells are after a split. */
  lemma SplitIndex(cells: seq<Cell>, i: nat, size: nat)
    requires i < |cells| && RoundUp(size) + HEADER <= cells[i].len
    ensures var t, c, k := SplitAt(cells, i, size), cells[i], RoundUp(size);
            && |t| == |cells| + 1 && t[i] == c.(len := k)
            && t[i + 1] == Cell(c.addr + k + HEADER, c.len - k - HEADER, false, false)
            && (forall j :: 0 <= j < i ==> t[j] == cells[j])
            && (forall j :: i + 1 < j < |t| ==> t[j] == cells[j - 1])
  {
  }

  /** The list made of these cells is tiled. */
  lemma TiledIs(cells: seq<Cell>)
    requires forall i :: 0 <= i < |cells| ==> CellOk(cells[i]) && Joined(cells, i)
    requires cells != [] ==> ClosesPage(cells[|cells| - 1])
    requires forall i, j :: 0 <= i < j < |cells| && cells[i].start && cells[j].start ==> cells[i].addr != cells[j].addr
    ensures Tiled(cells)
  {
  }

  lemma TiledAt(cells: seq<Cell>, i: nat)
    requires Tiled(cells) && i < |cells|
    ensures CellOk(cells[i]) && Joined(cells, i) && ClosesPage(cells[|cells| - 1])
  {
  }

  lemma StartsDiffer(cells: seq<Cell>, i: nat, j: nat)
    requires Tiled(cells) && i < j < |cells| && cells[i].start && cells[j].start
    ensures cells[i].addr != cells[j].addr
  {
  }

  lemma JoinedIs(cells: seq<Cell>, i: nat)
    requires i < |cells|
    ensures Joined(cells, i) <==>
            if cells[i].start then i == 0 || ClosesPage(cells[i - 1])
            else i > 0 && cells[i].addr == cells[i - 1].addr + HEADER + cells[i - 1].len
  {
  }

  lemma ClosesPageIs(c: Cell)
    ensures ClosesPage(c) <==> c.addr + HEADER + c.len == PageOf(c.addr) + PAGE
  {
  }

  lemma SplitKeepsTiling(cells: seq<Cell>, i: nat, size: nat)
    requires Tiled(cells) && i < |cells| && RoundUp(size) + HEADER <= cells[i].len
    ensures Tiled(SplitAt(cells, i, size))
    ensures forall j :: 0 <= j < |cells| ==> cells[j].addr != SplitAt(cells, i, size)[i + 1].addr
  {
    hide *;
    var t := SplitAt(cells, i, size);
    SplitIndex(cells, i, size);
    TiledAt(cells, i);
    SplitCell(cells[i], size);
    SplitAddressIsNew(cells, i, t[i + 1].addr);
    forall j | 0 <= j < |t| ensures CellOk(t[j]) && Joined(t, j) {
      SplitJoined(cells, i, size, j);
    }
    ClosesPageIs(t[|t| - 1]);
    ClosesPageIs(cells[|cells| - 1]);
    EndIs(t[i + 1]);
    EndIs(cells[i]);
    forall j, k | 0 <= j < k < |t| && t[j].start && t[k].start ensures t[j].addr != t[k].addr {
      StartsDiffer(cells, if j <= i then j else j - 1, if k <= i then k else k - 1);
    }
    TiledIs(t);
  }

  lemma EndIs(c: Cell)
    ensures c.End() == c.addr + HEADER + c.len
  {
  }

  lemma SplitJoined(cells: seq<Cell>, i: nat, size: nat, j: nat)
    requires Tiled(cells) && i < |cells| && RoundUp(size) + HEADER <= cells[i].len && j <= |cells|
    ensures j < |SplitAt(cells, i, size)| && CellOk(SplitAt(cells, i, size)[j]) && Joined(SplitAt(cells, i, size), j)
  {
    hide *;
    var t := SplitAt(cells, i, size);
    SplitIndex(cells, i, size);
    TiledAt(cells, i);
    SplitCell(cells[i], size);
    JoinedIs(t, j);
    var k := if j <= i then j else j - 1;
    TiledAt(cells, k);
    JoinedIs(cells, k);
    if j == i + 2 {
      ClosesPageIs(t[i + 1]);
      ClosesPageIs(cells[i]);
      EndIs(t[i + 1]);
      EndIs(cells[i]);
    }
  }

  lemma SplitKeepsPages(cells: seq<Cell>, i: nat, size: nat)
    requires i < |cells| && RoundUp(size) + HEADER <= cells[i].len
    ensures Pages(SplitAt(cells, i, size)) == Pages(cells)
  {
    var t := SplitAt(cells, i, size);
    forall a | a in Pages(cells) ensures a in Pages(t) {
      var j :| 0 <= j < |cells| && cells[j].start && cells[j].addr == a;
      assert t[if j <= i then j else j + 1].addr == a;
    }
  }

  lemma MergeCell(c: Cell, d: Cell)
    requires CellOk(c) && CellOk(d) && !d.start && d.addr == c.End()
    ensures var e := c.(len := c.len + d.len + HEADER);
            CellOk(e) && e.End() == d.End() && PageOf(d.addr) == PageOf(c.addr)
  {
    var e := c.(len := c.len + d.len + HEADER);
    CellOkIs(c);
    CellOkIs(d);
    CellOkIs(e);
    EndIs(c);
    EndIs(d);
    EndIs(e);
    hide *;
    PageBounds(c.addr);
    PageAbove(PageOf(c.addr));
    PageIs(d.addr, PageOf(c.addr));
    Multiples(c.len, d.len);
    Multiples(c.len + d.len, HEADER);
  }

  /** Where the cells are after a merge. */
  lemma MergeIndex(cells: seq<Cell>, i: nat)
    requires i + 1 < |cells|
    ensures var t := MergeAt(cells, i);
            && |t| == |cells| - 1 && t[i] == cells[i].(len := cells[i].len + cells[i + 1].len + HEADER)
            && (forall j :: 0 <= j < i ==> t[j] == cells[j])
            && (forall j :: i < j < |t| ==> t[j] == cells[j + 1])
  {
  }

  lemma MergeKeepsTiling(cells: seq<Cell>, i: nat)
    requires Tiled(cells) && i + 1 < |cells| && !cells[i + 1].start
    ensures Tiled(MergeAt(cells, i))
  {
    hide *;
    var t := MergeAt(cells, i);
    MergeIndex(cells, i);
    forall j | 0 <= j < |t| ensures CellOk(t[j]) && Joined(t, j) {
      MergeJoined(cells, i, j);
    }
    MergeCloses(cells, i);
    TiledAt(cells, i);
    forall j, k | 0 <= j < k < |t| && t[j].start && t[k].start ensures t[j].addr != t[k].addr {
      StartsDiffer(cells, if j <= i then j else j + 1, if k <= i then k else k + 1);
    }
    TiledIs(t);
  }

  lemma MergeCloses(cells: seq<Cell>, i: nat)
    requires Tiled(cells) && i + 1 < |cells| && !cells[i + 1].start
    ensures var e := cells[i].(len := cells[i].len + cells[i + 1].len + HEADER);
            CellOk(e) && (ClosesPage(e) <==> ClosesPage(cells[i + 1]))
  {
    hide *;
    var e := cells[i].(len := cells[i].len + cells[i + 1].len + HEADER);
    TiledAt(cells, i);
    TiledAt(cells, i + 1);
    JoinedIs(cells, i + 1);
    EndIs(cells[i]);
    MergeCell(cells[i], cells[i + 1]);
    ClosesPageIs(e);
    ClosesPageIs(cells[i + 1]);
    EndIs(e);
    EndIs(cells[i + 1]);
  }

  lemma MergeJoined(cells: seq<Cell>, i: nat, j: nat)
    requires Tiled(cells) && i + 1 < |cells| && !cells[i + 1].start && j < |cells| - 1
    ensures j < |MergeAt(cells, i)| && CellOk(MergeAt(cells, i)[j]) && Joined(MergeAt(cells, i), j)
  {
    hide *;
    var t := MergeAt(cells, i);
    MergeIndex(cells, i);
    MergeCloses(cells, i);
    JoinedIs(t, j);
    var k := if j <= i then j else j + 1;
    TiledAt(cells, k);
    JoinedIs(cells, k);
    if j == i + 1 {
      TiledAt(cells, i + 1);
      JoinedIs(cells, i + 1);
    }
  }

  lemma MergeKeepsPages(cells: seq<Cell>, i: nat)
    requires i + 1 < |cells| && !cells[i + 1].start
    ensures Pages(MergeAt(cells, i)) == Pages(cells)
  {
    var t := MergeAt(cells, i);
    forall a | a in Pages(cells) ensures a in Pages(t) {
      var j :| 0 <= j < |cells| && cells[j].start && cells[j].addr == a;
      assert t[if j <= i then j else j - 1].addr == a;
    }
  }

  lemma UseKeepsTiling(cells: seq<Cell>, i: nat, inUse: bool)
    requires Tiled(cells) && i < |cells|
    ensures Tiled(cells[i := cells[i].(inUse := inUse)])
    ensures Pages(cells[i := cells[i].(inUse := inUse)]) == Pages(cells)
  {
    var t := cells[i := cells[i].(inUse := inUse)];
    assert forall j :: 0 <= j < |t| ==>
      t[j].addr == cells[j].addr && t[j].len == cells[j].len && t[j].start == cells[j].start;
    forall j | 0 <= j < |t| ensures Joined(t, j) {
      assert Joined(cells, j);
    }
    forall j | 0 <= j < |t| ensures CellOk(t[j]) {
      assert CellOk(cells[j]);
    }
  }

  lemma WholePageKeepsTiling(cells: seq<Cell>, page: nat)
    requires Tiled(cells) && FreshPage(cells, page)
    ensures Tiled(cells + [Cell(page, MAX_PAYLOAD, false, true)])
    ensures Pages(cells + [Cell(page, MAX_PAYLOAD, false, true)]) == Pages(cells) + {page}
    ensures page !in Pages(cells)
  {
    var t := cells + [Cell(page, MAX_PAYLOAD, false, true)];
    FreshCell(page);
    FreshStarts(cells, page);
    WholePagePages(cells, page);
    hide CellOk, ClosesPage, Joined, PageOf;
    JoinedIs(t, |cells|);
    forall j | 0 <= j < |t| ensures CellOk(t[j]) && Joined(t, j) {
      if j < |cells| {
        TiledAt(cells, j);
        JoinedIs(cells, j);
        JoinedIs(t, j);
      } else if cells != [] {
        TiledAt(cells, |cells| - 1);
      }
    }
    hide Tiled;
    forall j, k | 0 <= j < k < |t| && t[j].start && t[k].start ensures t[j].addr != t[k].addr {
      if k < |cells| {
        StartsDiffer(cells, j, k);
      }
    }
    TiledIs(t);
  }

  lemma FreshCell(page: nat)
    requires 0 < page && page % PAGE == 0
    ensures var c := Cell(page, MAX_PAYLOAD, false, true); CellOk(c) && ClosesPage(c)
  {
    var c := Cell(page, MAX_PAYLOAD, false, true);
    CellOkIs(c);
    ClosesPageIs(c);
    hide CellOk, ClosesPage, PageOf;
    PageBounds(page);
    PageAligned(page);
  }

  lemma PageAligned(page: nat)
    requires page % PAGE == 0
    ensures page % HEADER == 0
  {
    assert page == HEADER * (256 * (page / PAGE));
  }

  lemma FreshStarts(cells: seq<Cell>, page: nat)
    requires Tiled(cells) && FreshPage(cells, page)
    ensures 0 < page && page % PAGE == 0 && forall j :: 0 <= j < |cells| && cells[j].start ==> cells[j].addr != page
  {
    forall j | 0 <= j < |cells| && cells[j].start ensures cells[j].addr != page {
      TiledAt(cells, j);
      CellOkIs(cells[j]);
      PageBounds(cells[j].addr);
    }
  }

  lemma WholePagePages(cells: seq<Cell>, page: nat)
    requires forall j :: 0 <= j < |cells| && cells[j].start ==> cells[j].addr != page
    ensures Pages(cells + [Cell(page, MAX_PAYLOAD, false, true)]) == Pages(cells) + {page} && page !in Pages(cells)
  {
    var t := cells + [Cell(page, MAX_PAYLOAD, false, true)];
    assert forall j :: 0 <= j < |cells| ==> t[j] == cells[j];
    assert t[|cells|].start;
  }

  lemma NewPageKeepsTiling(cells: seq<Cell>, page: nat, size: nat)
    requires Tiled(cells) && FreshPage(cells, page)
    ensures Tiled(cells + NewPage(page, size))
    ensures Pages(cells + NewPage(page, size)) == Pages(cells) + {page}
    ensures page !in Pages(cells)
  {
    var t := cells + [Cell(page, MAX_PAYLOAD, false, true)];
    WholePageKeepsTiling(cells, page);
    if size < MAX_PAYLOAD - HEADER {
      SplitKeepsTiling(t, |cells|, size);
      SplitKeepsPages(t, |cells|, size);
      assert SplitAt(t, |cells|, size) == cells + NewPage(page, size);
    }
  }

  lemma WholePageCloses(c: Cell)
    requires CellOk(c) && c.start && c.len == MAX_PAYLOAD
    ensures ClosesPage(c)
    ensures forall d: Cell :: CellOk(d) && d.addr == c.End() ==> d.start
  {
  }

  lemma RemoveKeepsTiling(cells: seq<Cell>, i: nat)
    requires Tiled(cells) && i < |cells| && cells[i].start && cells[i].len == MAX_PAYLOAD
    ensures Tiled(cells[..i] + cells[i + 1..])
    ensures Pages(cells[..i] + cells[i + 1..]) == Pages(cells) - {cells[i].addr}
  {
    var t := cells[..i] + cells[i + 1..];
    RemoveJoins(cells, i);
    RemovePages(cells, i);
    assert forall j :: 0 <= j < |t| ==> t[j] == cells[if j < i then j else j + 1];
    assert t != [] && i == |t| ==> Joined(cells, i);
  }

  lemma RemoveJoins(cells: seq<Cell>, i: nat)
    requires Tiled(cells) && i < |cells| && cells[i].start && cells[i].len == MAX_PAYLOAD
    ensures var t := cells[..i] + cells[i + 1..];
            forall j :: 0 <= j < |t| ==> Joined(t, j)
  {
    var t := cells[..i] + cells[i + 1..];
    assert CellOk(cells[i]);
    WholePageCloses(cells[i]);
    hide CellOk, ClosesPage;
    forall j | 0 <= j < |t| ensures Joined(t, j) {
      assert t[j] == cells[if j < i then j else j + 1];
      assert Joined(cells, if j < i then j else j + 1);
      assert Joined(cells, i);
    }
  }

  lemma RemovePages(cells: seq<Cell>, i: nat)
    requires Tiled(cells) && i < |cells| && cells[i].start
    ensures Pages(cells[..i] + cells[i + 1..]) == Pages(cells) - {cells[i].addr}
  {
    hide CellOk, ClosesPage, Joined;
    var t := cells[..i] + cells[i + 1..];
    assert forall j :: 0 <= j < |t| ==> t[j] == cells[if j < i then j else j + 1];
    forall a | a in Pages(cells) - {cells[i].addr} ensures a in Pages(t) {
      var j :| 0 <= j < |cells| && cells[j].start && cells[j].addr == a;
      assert t[if j < i then j else j - 1] == cells[j];
    }
  }

  // ---------- malloc and free keep the invariant ----------

  lemma FirstFitIs(cells: seq<Cell>, size: nat, i: nat)
    requires i <= |cells| && (i < |cells| ==> cells[i].Fits(size))
    requires forall j :: 0 <= j < i ==> !cells[j].Fits(size)
    ensures FirstFit(cells, size) == i
  {
  }

  lemma FreshPageFits(cells: seq<Cell>, size: nat, page: nat)
    requires FirstFit(cells, size) == |cells| && size <= MAX_PAYLOAD
    ensures var t := cells + NewPage(page, size);
            && FirstFit(t, size) == |cells| && t[|cells|].len <= size + HEADER
            && TakeAt(t, |cells|, size) == t[|cells| := t[|cells|].(inUse := true)]
  {
    var t := cells + NewPage(page, size);
    NewPageFits(page, size);
    assert t[|cells|] == NewPage(page, size)[0];
    assert forall j :: 0 <= j < |cells| ==> t[j] == cells[j];
    FirstFitIs(t, size, |cells|);
  }

  lemma TakeKeepsTiling(cells: seq<Cell>, i: nat, size: nat)
    requires Tiled(cells) && i < |cells| && cells[i].Fits(size) && cells[i].len % HEADER == 0
    ensures Tiled(TakeAt(cells, i, size)) && Pages(TakeAt(cells, i, size)) == Pages(cells)
  {
    if cells[i].len > size + HEADER {
      SplitKeepsTiling(cells, i, size);
      SplitKeepsPages(cells, i, size);
      UseKeepsTiling(SplitAt(cells, i, size), i, true);
    } else {
      UseKeepsTiling(cells, i, true);
    }
  }

  lemma TakeKeepsCoalesced(cells: seq<Cell>, i: nat, size: nat)
    requires Tiled(cells) && Coalesced(cells) && NoFreePage(cells)
    requires i < |cells| && cells[i].Fits(size) && cells[i].len % HEADER == 0
    ensures Coalesced(TakeAt(cells, i, size)) && NoFreePage(TakeAt(cells, i, size))
  {
    hide Tiled, SplitAt, RoundUp;
    if cells[i].len > size + HEADER {
      TakeFits(cells[i], size);
      SplitIndex(cells, i, size);
      var t := TakeAt(cells, i, size);
      assert i + 1 < |cells| && !cells[i + 1].start ==> cells[i + 1].inUse;
      forall j | 0 <= j < |t| ensures !WholePageFree(t[j]) && (j > 0 && !t[j].start ==> t[j - 1].inUse || t[j].inUse) {
        assert j < i ==> t[j] == cells[j];
      }
    }
  }

  /** What is left of a cell that is split is long enough for its header. */
  lemma TakeFits(c: Cell, size: nat)
    requires c.len > size + HEADER && c.len % HEADER == 0
    ensures RoundUp(size) + HEADER <= c.len
  {
  }

  lemma NewPageIsFree(page: nat, size: nat)
    ensures forall j :: 0 <= j < |NewPage(page, size)| ==> !NewPage(page, size)[j].inUse
  {
  }

  lemma TakeNewPage(cells: seq<Cell>, size: nat, page: nat)
    requires Tiled(cells) && Coalesced(cells) && NoFreePage(cells)
    requires FirstFit(cells, size) == |cells| && size <= MAX_PAYLOAD && FreshPage(cells, page)
    ensures var t := TakeAt(cells + NewPage(page, size), |cells|, size);
            && Tiled(t) && Coalesced(t) && NoFreePage(t)
            && Pages(t) == Pages(cells) + {page} && page !in Pages(cells)
  {
    var u := cells + NewPage(page, size);
    NewPageKeepsTiling(cells, page, size);
    FreshPageFits(cells, size, page);
    UseKeepsTiling(u, |cells|, true);
    NewPageStarts(page, size);
    hide Tiled, NewPage, TakeAt, Pages;
    AppendKeepsCoalesced(cells, NewPage(page, size));
  }

  lemma NewPageStarts(page: nat, size: nat)
    ensures var p := NewPage(page, size);
            0 < |p| <= 2 && p[0].start && forall j :: 0 < j < |p| ==> !p[j].start
  {
  }

  lemma AppendKeepsCoalesced(cells: seq<Cell>, p: seq<Cell>)
    requires Coalesced(cells) && NoFreePage(cells)
    requires 0 < |p| <= 2 && p[0].start && forall j :: 0 < j < |p| ==> !p[j].start
    ensures var u := cells + p;
            var t := u[|cells| := u[|cells|].(inUse := true)];
            Coalesced(t) && NoFreePage(t)
  {
    var u := cells + p;
    var t := u[|cells| := u[|cells|].(inUse := true)];
    assert forall j :: 0 <= j < |cells| ==> t[j] == cells[j];
  }

  lemma MallocKeepsInv(s: State, size: nat, page: nat)
    requires Inv(s) && Mallocable(s, size, page)
    ensures Inv(MallocState(s, size, page))
  {
    var i, cells := FirstFit(s.cells, size), s.cells;
    var s' := MallocState(s, size, page);
    if i < |cells| {
      assert CellOk(cells[i]);
      TakeKeepsTiling(cells, i, size);
      TakeKeepsCoalesced(cells, i, size);
    } else {
      TakeNewPage(cells, size, page);
      assert s'.calls[..|s'.calls| - 1] == s.calls;
    }
  }

  /** Every pair of neighbours is coalesced, except perhaps the free cell at `i` with the one
      before it, and only that cell may be a whole free page. */
  ghost predicate CoalescedExcept(cells: seq<Cell>, i: nat) {
    && (forall j :: 0 < j < |cells| && j != i && !cells[j].start ==> cells[j - 1].inUse || cells[j].inUse)
    && (forall j :: 0 <= j < |cells| && j != i ==> !WholePageFree(cells[j]))
  }

  lemma CoalesceNext(cells: seq<Cell>, i: nat)
    requires Tiled(cells) && Coalesced(cells) && NoFreePage(cells) && i < |cells| && cells[i].inUse
    ensures var c0 := cells[i := cells[i].(inUse := false)];
            var c1 := if JoinsNext(c0, i) then MergeAt(c0, i) else c0;
            && Tiled(c1) && Pages(c1) == Pages(cells) && i < |c1| && !c1[i].inUse && c1[i].start == cells[i].start
            && c1[i].addr == cells[i].addr && CoalescedExcept(c1, i)
  {
    var c0 := cells[i := cells[i].(inUse := false)];
    UseKeepsTiling(cells, i, false);
    CoalesceNextExcept(cells, i);
    hide Coalesced, NoFreePage, CoalescedExcept;
    if JoinsNext(c0, i) {
      MergeKeepsTiling(c0, i);
      MergeKeepsPages(c0, i);
      hide Tiled, Pages, MergeAt;
      MergeIndex(c0, i);
    }
  }

  lemma CoalesceNextExcept(cells: seq<Cell>, i: nat)
    requires Tiled(cells) && Coalesced(cells) && NoFreePage(cells) && i < |cells| && cells[i].inUse
    ensures var c0 := cells[i := cells[i].(inUse := false)];
            CoalescedExcept(if JoinsNext(c0, i) then MergeAt(c0, i) else c0, i)
  {
    var c0 := cells[i := cells[i].(inUse := false)];
    if i + 1 < |cells| {
      TiledAt(cells, i + 1);
      JoinedIs(cells, i + 1);
      EndIs(c0[i]);
    }
    hide Tiled, MergeAt;
    if JoinsNext(c0, i) {
      MergeIndex(c0, i);
      var c1 := MergeAt(c0, i);
      forall j | 0 <= j < |c1| && j != i
        ensures !WholePageFree(c1[j]) && (j > 0 && !c1[j].start ==> c1[j - 1].inUse || c1[j].inUse)
      {
        assert c1[j] == cells[if j < i then j else j + 1];
        assert j == i + 1 && !cells[j + 1].start ==> cells[j].inUse || cells[j + 1].inUse;
      }
    }
  }

  lemma CoalesceNoPrev(cells: seq<Cell>, i: nat)
    requires Tiled(cells) && i < |cells| && CoalescedExcept(cells, i) && !JoinsPrev(cells, i)
    ensures Coalesced(cells)
  {
    assert Joined(cells, i);
  }

  lemma CoalescePrev(cells: seq<Cell>, i: nat)
    requires Tiled(cells) && i < |cells| && !cells[i].inUse
    requires CoalescedExcept(cells, i) && JoinsPrev(cells, i)
    ensures var c := MergeAt(cells, i - 1);
            Tiled(c) && Coalesced(c) && Pages(c) == Pages(cells) && !c[i - 1].inUse && CoalescedExcept(c, i - 1)
  {
    MergeKeepsTiling(cells, i - 1);
    MergeKeepsPages(cells, i - 1);
    hide Tiled, Pages, MergeAt;
    MergeIndex(cells, i - 1);
    var c := MergeAt(cells, i - 1);
    forall j | 0 <= j < |c|
      ensures (j != i - 1 ==> !WholePageFree(c[j])) && (j > 0 && !c[j].start ==> c[j - 1].inUse || c[j].inUse)
    {
      if j < i - 1 {
        assert c[j] == cells[j] && (j > 0 ==> c[j - 1] == cells[j - 1]);
      } else if j == i - 1 {
        assert j > 0 ==> c[j - 1] == cells[j - 1];
      } else {
        assert c[j] == cells[j + 1] && (!cells[j + 1].start ==> cells[j].inUse || cells[j + 1].inUse);
      }
    }
  }

  lemma CoalesceKeeps(cells: seq<Cell>, i: nat)
    requires Tiled(cells) && Coalesced(cells) && NoFreePage(cells) && i < |cells| && cells[i].inUse
    ensures var (c, k) := Coalesce(cells, i);
            Tiled(c) && Coalesced(c) && Pages(c) == Pages(cells) && !c[k].inUse && CoalescedExcept(c, k)
  {
    CoalesceNext(cells, i);
    var c0 := cells[i := cells[i].(inUse := false)];
    var c1 := if JoinsNext(c0, i) then MergeAt(c0, i) else c0;
    if JoinsPrev(c1, i) {
      CoalescePrev(c1, i);
    } else {
      CoalesceNoPrev(c1, i);
    }
  }

  lemma RemoveKeepsCoalesced(c: seq<Cell>, k: nat)
    requires Tiled(c) && Coalesced(c) && k < |c| && WholePageFree(c[k])
    requires CoalescedExcept(c, k)
    ensures Coalesced(c[..k] + c[k + 1..]) && NoFreePage(c[..k] + c[k + 1..])
  {
    var t := c[..k] + c[k + 1..];
    assert forall j :: 0 <= j < |t| ==> t[j] == c[if j < k then j else j + 1];
    if k + 1 < |c| {
      assert Joined(c, k + 1) && CellOk(c[k]) && CellOk(c[k + 1]);
      assert c[k + 1].start;
    }
  }

  lemma ReturnKeepsInv(c: seq<Cell>, k: nat, calls: seq<PageCall>)
    requires Tiled(c) && Coalesced(c) && k < |c| && !c[k].inUse && CoalescedExcept(c, k)
    requires HeldPages(calls) == Some(Pages(c))
    ensures Inv(Return(c, k, calls))
  {
    if WholePageFree(c[k]) {
      RemoveKeepsTiling(c, k);
      RemoveKeepsCoalesced(c, k);
      assert c[k].addr in Pages(c);
      assert (calls + [Returned(c[k].addr, PAGE)])[..|calls|] == calls;
    }
  }

  lemma FreeKeepsInv(s: State, i: nat)
    requires Inv(s) && i < |s.cells| && s.cells[i].inUse
    ensures Inv(FreeState(s, i))
  {
    CoalesceKeeps(s.cells, i);
    var (c, k) := Coalesce(s.cells, i);
    ReturnKeepsInv(c, k, s.calls);
  }

  // ---------- What the callers of malloc and free see ----------

  /** The allocated blocks: payload address and size. */
  ghost function LiveBlocks(cells: seq<Cell>): set<(nat, nat)> {
    set i | 0 <= i < |cells| && cells[i].inUse :: (cells[i].Payload(), cells[i].len)
  }

  /** Index of the block that `ptr` points to, or the length of the list. */
  function BlockAt(cells: seq<Cell>, ptr: nat): (i: nat)
    ensures i <= |cells|
    ensures i < |cells| ==> cells[i].Payload() == ptr
    ensures forall j :: 0 <= j < i ==> cells[j].Payload() != ptr
  {
    if cells == [] then 0
    else if cells[0].Payload() == ptr then 0
    else
      var i := BlockAt(cells[1..], ptr);
      assert forall j :: 1 <= j < i + 1 ==> cells[j] == cells[1..][j - 1];
      i + 1
  }

  /** `ptr` is what `malloc` returned for one of the live blocks. */
  ghost predicate PointsToLive(cells: seq<Cell>, ptr: nat) {
    exists i :: 0 <= i < |cells| && cells[i].inUse && cells[i].addr + HEADER == ptr
  }

  /** The search of `free` gets to a block exactly if it is live, and then to the right one. */
  lemma FindsLive(cells: seq<Cell>, ptr: nat)
    requires Tiled(cells)
    ensures BlockAt(cells, ptr) < |cells| && cells[BlockAt(cells, ptr)].inUse <==> PointsToLive(cells, ptr)
    ensures forall i :: 0 <= i < |cells| && cells[i].Payload() == ptr ==> i == BlockAt(cells, ptr)
  {
    DistinctAddresses(cells);
  }

  lemma PointsToLiveIs(cells: seq<Cell>, ptr: nat)
    ensures PointsToLive(cells, ptr) <==> exists b :: b in LiveBlocks(cells) && b.0 == ptr
  {
    if i :| 0 <= i < |cells| && cells[i].inUse && cells[i].addr + HEADER == ptr {
      assert (cells[i].Payload(), cells[i].len) in LiveBlocks(cells);
    }
  }

  lemma AllDisjoint(cells: seq<Cell>, i: nat)
    requires Tiled(cells) && i < |cells|
    ensures forall j :: 0 <= j < |cells| && j != i ==>
        cells[j].End() <= cells[i].addr || cells[i].End() <= cells[j].addr
  {
    hide Tiled, CellOk;
    forall j | 0 <= j < |cells| && j != i
      ensures cells[j].End() <= cells[i].addr || cells[i].End() <= cells[j].addr
    {
      Disjoint(cells, if i < j then i else j, if i < j then j else i);
    }
  }

  lemma CellBounds(c: Cell)
    requires CellOk(c)
    ensures c.Payload() % HEADER == 0 && 0 < c.addr
    ensures PageOf(c.addr) + HEADER <= c.Payload() && c.End() <= PageOf(c.addr) + PAGE
  {
  }

  lemma CellInPage(cells: seq<Cell>, i: nat)
    requires Tiled(cells) && i < |cells|
    ensures cells[i].Payload() % HEADER == 0 && 0 < cells[i].addr
    ensures exists page :: page in Pages(cells) && page + HEADER <= cells[i].Payload() && cells[i].End() <= page + PAGE
  {
    hide CellOk, PageOf;
    HeadOfOwnsPage(cells, i);
    CellBounds(cells[i]);
    assert cells[HeadOf(cells, i)].addr in Pages(cells);
  }

  /** Live payloads are aligned, disjoint from each other, clear of every header, and inside one of
      the pages held. */
  lemma LiveBlocksAreSeparate(s: State, b: (nat, nat))
    requires Inv(s) && b in LiveBlocks(s.cells)
    ensures b.0 % HEADER == 0 && b.0 != 0
    ensures forall d :: d in LiveBlocks(s.cells) && d != b ==> d.0 != b.0 && (b.0 + b.1 <= d.0 || d.0 + d.1 <= b.0)
    ensures forall i :: 0 <= i < |s.cells| ==> b.0 + b.1 <= s.cells[i].addr || s.cells[i].Payload() <= b.0
    ensures exists page :: page in Pages(s.cells) && page + HEADER <= b.0 && b.0 + b.1 <= page + PAGE
  {
    hide Tiled, CellOk;
    var i :| 0 <= i < |s.cells| && s.cells[i].inUse && b == (s.cells[i].Payload(), s.cells[i].len);
    AllDisjoint(s.cells, i);
    CellInPage(s.cells, i);
  }

  lemma SplitLive(cells: seq<Cell>, i: nat, size: nat)
    requires i < |cells| && !cells[i].inUse && RoundUp(size) + HEADER <= cells[i].len
    ensures LiveBlocks(SplitAt(cells, i, size)) == LiveBlocks(cells)
  {
    var t := SplitAt(cells, i, size);
    MergeLive(t, i);
    assert MergeAt(t, i) == cells;
  }

  lemma UseLive(cells: seq<Cell>, i: nat)
    requires i < |cells| && !cells[i].inUse
    ensures LiveBlocks(cells[i := cells[i].(inUse := true)]) == LiveBlocks(cells) + {(cells[i].Payload(), cells[i].len)}
  {
    var t := cells[i := cells[i].(inUse := true)];
    assert t[i].inUse;
    forall b | b in LiveBlocks(cells) ensures b in LiveBlocks(t) {
      var j :| 0 <= j < |cells| && cells[j].inUse && b == (cells[j].Payload(), cells[j].len);
      assert t[j] == cells[j];
    }
  }

  /** How long a block is when a free header for `room` bytes is taken: the request up to the next
      multiple of 16, or all of the room if what is left is no more than a header. */
  ghost predicate BlockLength(size: nat, room: nat, len: nat) {
    && size <= len <= room && len % 16 == 0
    && if room > size + 16 then len < size + 16 else len == room
  }

  lemma TakeLive(cells: seq<Cell>, i: nat, size: nat)
    requires i < |cells| && cells[i].Fits(size) && cells[i].len % HEADER == 0
    ensures var t := TakeAt(cells, i, size);
            && LiveBlocks(t) == LiveBlocks(cells) + {(cells[i].Payload(), t[i].len)}
            && t[i].addr == cells[i].addr && t[i].inUse && BlockLength(size, cells[i].len, t[i].len)
  {
    if cells[i].len > size + HEADER {
      SplitLive(cells, i, size);
      UseLive(SplitAt(cells, i, size), i);
    } else {
      UseLive(cells, i);
    }
  }

  lemma SearchedList(s: State, size: nat, page: nat)
    requires Inv(s) && Mallocable(s, size, page)
    ensures var i, t := FirstFit(s.cells, size), Searched(s.cells, size, page);
            && i < |t| && t[i].Fits(size) && t[i].len % HEADER == 0
            && Tiled(t) && LiveBlocks(t) == LiveBlocks(s.cells)
  {
    hide Coalesced, NoFreePage, HeldPages, Pages;
    var i, t := FirstFit(s.cells, size), Searched(s.cells, size, page);
    NewPageFits(page, size);
    if i < |s.cells| {
      assert CellOk(t[i]);
    } else {
      NewPageKeepsTiling(s.cells, page, size);
      FreshPageFits(s.cells, size, page);
      NewPageIsFree(page, size);
      LivePrefix(s.cells, t);
    }
  }

  /** malloc adds one block, of the size asked for up to less than a header more, or of what a header
      had if that is no more than a header longer; its address was not live. */
  lemma MallocAddsOneBlock(s: State, size: nat, page: nat)
    requires Inv(s) && Mallocable(s, size, page)
    ensures var i, s' := FirstFit(s.cells, size), MallocState(s, size, page);
            && i < |s'.cells| && s'.cells[i].inUse
            && s'.cells[i].Payload() == 16 + (if i < |s.cells| then s.cells[i].addr else page)
            && BlockLength(size, if i < |s.cells| then s.cells[i].len else 4080, s'.cells[i].len)
            && LiveBlocks(s'.cells) == LiveBlocks(s.cells) + {(s'.cells[i].Payload(), s'.cells[i].len)}
            && (forall b :: b in LiveBlocks(s.cells) ==> b.0 != s'.cells[i].Payload())
  {
    SearchedList(s, size, page);
    hide *;
    var i, t := FirstFit(s.cells, size), Searched(s.cells, size, page);
    FitsIs(t[i], size);
    TakeLive(t, i, size);
    FreeCellIsNotLive(t, i);
    MallocStateIs(s, size, page);
    FitsIs(TakeAt(t, i, size)[i], size);
    SearchedAt(s.cells, size, page);
    if i == |s.cells| {
      NewBlockLength(size, t[i].len, TakeAt(t, i, size)[i].len);
    }
  }

  lemma FitsIs(c: Cell, size: nat)
    ensures c.Fits(size) <==> !c.inUse && size <= c.len
    ensures c.Payload() == 16 + c.addr
  {
  }

  /** What `malloc` makes of the list that it finds its header in. */
  lemma MallocStateIs(s: State, size: nat, page: nat)
    requires Tiled(s.cells) && Mallocable(s, size, page)
    ensures var i, t := FirstFit(s.cells, size), Searched(s.cells, size, page);
            && (i < |s.cells| || (i == |s.cells| && size <= 4080))
            && i < |t| && size <= t[i].len && t[i].len % HEADER == 0 && !t[i].inUse
            && MallocState(s, size, page).cells == TakeAt(t, i, size) && i < |TakeAt(t, i, size)|
  {
    NewPageFits(page, size);
    if FirstFit(s.cells, size) < |s.cells| {
      TiledAt(s.cells, FirstFit(s.cells, size));
    }
    hide Tiled, NewPage, SplitAt;
  }

  /** A whole page is split before the header is taken out of it. */
  lemma NewBlockLength(size: nat, room: nat, len: nat)
    requires room == (if size < 4064 then RoundUp(size) else 4080) && size <= 4080 && BlockLength(size, room, len)
    ensures BlockLength(size, 4080, len)
  {
  }

  /** The header that `malloc` takes: the first that fits, or that of the whole page, split or not. */
  lemma SearchedAt(cells: seq<Cell>, size: nat, page: nat)
    requires FirstFit(cells, size) < |cells| || size <= 4080
    ensures var i, t := FirstFit(cells, size), Searched(cells, size, page);
            && i < |t| && t[i].addr == (if i < |cells| then cells[i].addr else page)
            && if i < |cells| then t == cells else t[i].len == if size < 4064 then RoundUp(size) else 4080
  {
  }

  lemma FreeCellIsNotLive(cells: seq<Cell>, i: nat)
    requires Tiled(cells) && i < |cells| && !cells[i].inUse
    ensures forall b :: b in LiveBlocks(cells) ==> b.0 != cells[i].Payload()
  {
    DistinctAddresses(cells);
  }

  lemma LivePrefix(cells: seq<Cell>, t: seq<Cell>)
    requires |cells| <= |t| && t[..|cells|] == cells
    requires forall j :: |cells| <= j < |t| ==> !t[j].inUse
    ensures LiveBlocks(t) == LiveBlocks(cells)
  {
    assert forall j :: 0 <= j < |cells| ==> t[j] == cells[j];
  }

  /** free of a pointer to a live block takes exactly that block out. */
  lemma FreeRemovesPointed(s: State, ptr: nat)
    requires Inv(s) && PointsToLive(s.cells, ptr)
    ensures var i := BlockAt(s.cells, ptr);
            i < |s.cells| && LiveBlocks(FreeState(s, i).cells) == set b | b in LiveBlocks(s.cells) && b.0 != ptr
  {
    FindsLive(s.cells, ptr);
    var i := BlockAt(s.cells, ptr);
    FreeRemovesOneBlock(s, i);
    hide FreeState, BlockAt, Coalesced, NoFreePage, HeldPages, Pages;
    DistinctAddresses(s.cells);
    hide Tiled;
  }

  /** free removes exactly the freed block. */
  lemma FreeRemovesOneBlock(s: State, i: nat)
    requires Inv(s) && i < |s.cells| && s.cells[i].inUse
    ensures LiveBlocks(FreeState(s, i).cells) == LiveBlocks(s.cells) - {(s.cells[i].Payload(), s.cells[i].len)}
  {
    var cells := s.cells;
    UnuseLive(cells, i);
    hide LiveBlocks, Tiled, Inv, MergeAt;
    var c0 := cells[i := cells[i].(inUse := false)];
    var c1 := if JoinsNext(c0, i) then MergeAt(c0, i) else c0;
    if JoinsNext(c0, i) {
      MergeLive(c0, i);
      MergeIndex(c0, i);
    }
    if JoinsPrev(c1, i) {
      MergeLive(c1, i - 1);
      MergeIndex(c1, i - 1);
    }
    var (c, k) := Coalesce(cells, i);
    if c[k].start && c[k].len == MAX_PAYLOAD {
      RemoveLive(c, k);
    }
  }

  lemma UnuseLive(cells: seq<Cell>, i: nat)
    requires Tiled(cells) && i < |cells| && cells[i].inUse
    ensures LiveBlocks(cells[i := cells[i].(inUse := false)]) == LiveBlocks(cells) - {(cells[i].Payload(), cells[i].len)}
  {
    DistinctAddresses(cells);
    hide Tiled;
    var c0 := cells[i := cells[i].(inUse := false)];
    forall b | b in LiveBlocks(cells) && b != (cells[i].Payload(), cells[i].len) ensures b in LiveBlocks(c0) {
      var j :| 0 <= j < |cells| && cells[j].inUse && b == (cells[j].Payload(), cells[j].len);
      assert c0[j] == cells[j];
    }
  }

  lemma MergeLive(cells: seq<Cell>, i: nat)
    requires i + 1 < |cells| && !cells[i].inUse && !cells[i + 1].inUse
    ensures LiveBlocks(MergeAt(cells, i)) == LiveBlocks(cells)
  {
    var t := MergeAt(cells, i);
    assert forall j :: 0 <= j < |t| && j != i ==> t[j] == cells[if j < i then j else j + 1];
    forall b | b in LiveBlocks(cells) ensures b in LiveBlocks(t) {
      var j :| 0 <= j < |cells| && cells[j].inUse && b == (cells[j].Payload(), cells[j].len);
      assert t[if j < i then j else j - 1] == cells[j];
    }
  }

  lemma RemoveLive(cells: seq<Cell>, k: nat)
    requires k < |cells| && !cells[k].inUse
    ensures LiveBlocks(cells[..k] + cells[k + 1..]) == LiveBlocks(cells)
  {
    var t := cells[..k] + cells[k + 1..];
    assert forall j :: 0 <= j < |t| ==> t[j] == cells[if j < k then j else j + 1];
    forall b | b in LiveBlocks(cells) ensures b in LiveBlocks(t) {
      var j :| 0 <= j < |cells| && cells[j].inUse && b == (cells[j].Payload(), cells[j].len);
      assert t[if j < k then j else j - 1] == cells[j];
    }
  }

  /** Freeing what was just allocated restores the header list exactly; a page obtained for
      the allocation is returned whole. */
  lemma FreeUndoesMalloc(s: State, size: nat, page: nat)
    requires Inv(s) && Mallocable(s, size, page)
    ensures var i, s' := FirstFit(s.cells, size), MallocState(s, size, page);
            && i < |s'.cells|
            && FreeState(s', i) ==
               State(s.cells, if i < |s.cells| then s.calls else s.calls + [Got(page), Returned(page, PAGE)])
  {
    var i, s' := FirstFit(s.cells, size), MallocState(s, size, page);
    var cells := s.cells;
    NewPageFits(page, size);
    if i < |cells| {
      assert CellOk(cells[i]) && Joined(cells, i);
      TakeThenCoalesce(cells, i, size);
      assert !WholePageFree(cells[i]);
    } else {
      FreshPageFits(cells, size, page);
      NewPageThenCoalesce(cells, size, page);
      assert (cells + [Cell(page, MAX_PAYLOAD, false, true)])[..i] == cells;
      assert s.calls + [Got(page)] + [Returned(page, PAGE)] == s.calls + [Got(page), Returned(page, PAGE)];
    }
  }

  lemma TakeThenCoalesce(cells: seq<Cell>, i: nat, size: nat)
    requires Tiled(cells) && Coalesced(cells) && i < |cells| && cells[i].Fits(size) && cells[i].len % HEADER == 0
    ensures Coalesce(TakeAt(cells, i, size), i) == (cells, i)
  {
    NothingJoins(cells, i);
    if cells[i].len > size + HEADER {
      SplitThenMerge(cells, i, size);
    } else {
      assert TakeAt(cells, i, size)[i := cells[i]] == cells;
    }
  }

  /** A free cell of a coalesced list has nothing to merge with. */
  lemma NothingJoins(cells: seq<Cell>, i: nat)
    requires Coalesced(cells) && i < |cells| && !cells[i].inUse
    ensures !JoinsNext(cells, i) && !JoinsPrev(cells, i)
  {
  }

  lemma SplitThenMerge(cells: seq<Cell>, i: nat, size: nat)
    requires i < |cells| && cells[i].Fits(size) && cells[i].len % HEADER == 0 && cells[i].len > size + HEADER
    ensures var c0 := TakeAt(cells, i, size)[i := TakeAt(cells, i, size)[i].(inUse := false)];
            JoinsNext(c0, i) && MergeAt(c0, i) == cells
  {
    TakeFits(cells[i], size);
    hide RoundUp, SplitAt;
    var t := SplitAt(cells, i, size);
    SplitIndex(cells, i, size);
    var c0 := TakeAt(cells, i, size)[i := TakeAt(cells, i, size)[i].(inUse := false)];
    assert c0 == t;
    assert JoinsNext(t, i);
    MergeIndex(t, i);
    hide MergeAt;
    var m := MergeAt(t, i);
    assert |m| == |cells| && forall j :: 0 <= j < |m| ==> m[j] == cells[j];
  }

  lemma NewPageThenCoalesce(cells: seq<Cell>, size: nat, page: nat)
    requires size <= MAX_PAYLOAD
    ensures var t := cells + NewPage(page, size);
            Coalesce(t[|cells| := t[|cells|].(inUse := true)], |cells|)
            == (cells + [Cell(page, MAX_PAYLOAD, false, true)], |cells|)
  {
    var t := cells + NewPage(page, size);
    assert t[|cells| := t[|cells|].(inUse := true)][|cells| := t[|cells|]] == t;
    if size < MAX_PAYLOAD - HEADER {
      assert JoinsNext(t, |cells|);
      assert MergeAt(t, |cells|) == cells + [Cell(page, MAX_PAYLOAD, false, true)];
    }
  }

  // ---------- Whole runs ----------

  /** The first block, in numbers: 100 bytes out of the page at 0x1000, and the page back. */
  lemma FirstBlock()
    ensures FreshPage([], 0x1000)
    ensures MallocState(State([], []), 100, 0x1000)
            == State([Cell(0x1000, 112, true, true), Cell(0x1080, 3952, false, false)], [Got(0x1000)])
    ensures BlockAt([Cell(0x1000, 112, true, true), Cell(0x1080, 3952, false, false)], 0x1010) == 0
    ensures FreeState(State([Cell(0x1000, 112, true, true), Cell(0x1080, 3952, false, false)], []), 0)
            == State([], [Returned(0x1000, 4096)])
  {
    assert NewPage(0x1000, 100) == [Cell(0x1000, 112, false, true), Cell(0x1080, 3952, false, false)];
    assert [] + NewPage(0x1000, 100) == NewPage(0x1000, 100);
    var cells := [Cell(0x1000, 112, true, true), Cell(0x1080, 3952, false, false)];
    var freed := cells[0 := cells[0].(inUse := false)];
    assert MergeAt(freed, 0) == [Cell(0x1000, 4080, false, true)];
    assert Coalesce(cells, 0) == ([Cell(0x1000, 4080, false, true)], 0);
  }

  datatype Op = Malloc(size: nat, page: nat) | Free(ptr: nat)

  datatype Outcome = Running(s: State) | Halted

  ghost predicate Succeeds(s: State, op: Op) {
    match op
    case Malloc(size, page) => Mallocable(s, size, page)
    case Free(ptr) => PointsToLive(s.cells, ptr)
  }

  ghost function Exec(s: State, op: Op): (s': State)
    requires Inv(s) && Succeeds(s, op)
    ensures Inv(s')
  {
    match op
    case Malloc(size, page) =>
      MallocKeepsInv(s, size, page);
      MallocState(s, size, page)
    case Free(ptr) =>
      FindsLive(s.cells, ptr);
      FreeKeepsInv(s, BlockAt(s.cells, ptr));
      FreeState(s, BlockAt(s.cells, ptr))
  }

  /** The heap after any sequence of calls, starting with no page at all. */
  ghost function After(ops: seq<Op>): (r: Outcome)
    ensures r.Running? ==> Inv(r.s)
  {
    if ops == [] then Running(State([], []))
    else
      match After(ops[..|ops| - 1])
      case Running(s) =>
        if Succeeds(s, ops[|ops| - 1]) then Running(Exec(s, ops[|ops| - 1])) else Halted
      case Halted => Halted
  }

  /** In every run: each page obtained and not yet returned is tiled exactly by its headers and
      payloads, no page is held without a live block in it, and live blocks never overlap. */
  lemma EveryRunIsSafe(ops: seq<Op>)
    requires After(ops).Running?
    ensures var s := After(ops).s;
            && HeldPages(s.calls) == Some(Pages(s.cells))
            && (s.cells == [] <==> LiveBlocks(s.cells) == {})
            && (forall b, d :: b in LiveBlocks(s.cells) && d in LiveBlocks(s.cells) && b != d ==>
                  b.0 + b.1 <= d.0 || d.0 + d.1 <= b.0)
            && (forall page :: page in Pages(s.cells) ==> PageHoldsLiveBlock(s.cells, page))
  {
    var s := After(ops).s;
    EmptyIffNothingLive(s);
    if s.cells != [] {
      var i :| 0 <= i < |s.cells| && s.cells[i].inUse;
      assert (s.cells[i].Payload(), s.cells[i].len) in LiveBlocks(s.cells);
    }
    forall b, d | b in LiveBlocks(s.cells) && d in LiveBlocks(s.cells) && b != d
      ensures b.0 + b.1 <= d.0 || d.0 + d.1 <= b.0
    {
      LiveBlocksAreSeparate(s, b);
    }
    forall page | page in Pages(s.cells) ensures PageHoldsLiveBlock(s.cells, page) {
      var h :| 0 <= h < |s.cells| && s.cells[h].start && s.cells[h].addr == page;
      LivePage(s, h);
    }
  }

  ghost predicate PageHoldsLiveBlock(cells: seq<Cell>, page: nat) {
    exists i :: 0 <= i < |cells| && cells[i].inUse && PageOf(cells[i].addr) == page
  }

  lemma LivePage(s: State, h: nat)
    requires Inv(s) && h < |s.cells| && s.cells[h].start
    ensures PageHoldsLiveBlock(s.cells, s.cells[h].addr)
  {
    var cells := s.cells;
    assert CellOk(cells[h]) && !WholePageFree(cells[h]);
    if !cells[h].inUse {
      assert !ClosesPage(cells[h]);
      assert h + 1 < |cells| && Joined(cells, h + 1);
      assert CellOk(cells[h + 1]) && cells[h + 1].inUse;
      assert PageOf(cells[h + 1].addr) == cells[h].addr;
    }
  }
}
