/** The allocator itself: the search loops, and the in-place edits of the header records. */
module Heap {
  import opened Machine
  import opened HeapModel

  function AddrAt(cells: seq<Cell>, i: int): nat {
    if 0 <= i < |cells| then cells[i].addr else 0
  }

  ghost predicate At(headers: map<nat, Header>, cells: seq<Cell>, i: nat)
    requires i < |cells|
  {
    && cells[i].addr in headers
    && headers[cells[i].addr] ==
       Header(AddrAt(cells, i + 1), AddrAt(cells, i - 1), cells[i].len, cells[i].inUse, cells[i].start)
  }

  /** The records in memory form a doubly linked list of exactly these cells. */
  ghost predicate Linked(headers: map<nat, Header>, cells: seq<Cell>) {
    && (forall i :: 0 <= i < |cells| ==> At(headers, cells, i))
    && (forall i, j :: 0 <= i < j < |cells| ==> cells[i].addr != cells[j].addr)
    && (forall i :: 0 <= i < |cells| ==> cells[i].addr != 0)
  }

  /** The pages the memory manager will hand out, in order; when there are none left it fails. */
  ghost predicate Supply(cells: seq<Cell>, supply: seq<nat>) {
    && (forall k :: 0 <= k < |supply| ==> FreshPage(cells, supply[k]))
    && (forall j, k :: 0 <= j < k < |supply| ==> supply[j] != supply[k])
  }

  /** The records after `split_header` has been through them. */
  function SplitRecords(headers: map<nat, Header>, hdr: nat, k: nat): map<nat, Header>
    requires hdr in headers && k + HEADER <= headers[hdr].len
    requires headers[hdr].next != 0 ==> headers[hdr].next in headers
  {
    var h, a := headers[hdr], hdr + k + HEADER;
    var h1 := headers[a := Header(h.next, hdr, h.len - k - HEADER, false, false)];
    var h2 := if h.next == 0 then h1 else h1[h.next := h1[h.next].(prev := a)];
    h2[hdr := h2[hdr].(next := a, len := k)]
  }

  lemma AtIs(headers: map<nat, Header>, cells: seq<Cell>, i: nat)
    requires i < |cells|
    ensures At(headers, cells, i) <==>
            && cells[i].addr in headers
            && var (h, c) := (headers[cells[i].addr], cells[i]);
               && h.next == (if i + 1 < |cells| then cells[i + 1].addr else 0)
               && h.prev == (if i > 0 then cells[i - 1].addr else 0)
               && h.len == c.len && h.inUse == c.inUse && h.start == c.start
  {
  }

  /** What the list says of the record of one cell, and of two. */
  lemma LinkedAt(headers: map<nat, Header>, cells: seq<Cell>, i: nat)
    requires Linked(headers, cells) && i < |cells|
    ensures At(headers, cells, i) && cells[i].addr != 0 && cells[i].addr in headers
  {
  }

  lemma AddressesDiffer(headers: map<nat, Header>, cells: seq<Cell>, i: nat, j: nat)
    requires Linked(headers, cells) && i < |cells| && j < |cells| && i != j
    ensures cells[i].addr != cells[j].addr
  {
  }

  lemma LinkedIs(headers: map<nat, Header>, cells: seq<Cell>)
    requires forall i :: 0 <= i < |cells| ==> At(headers, cells, i) && cells[i].addr != 0
    requires forall i, j :: 0 <= i < j < |cells| ==> cells[i].addr != cells[j].addr
    ensures Linked(headers, cells)
  {
  }

  lemma SplitRecordsIs(headers: map<nat, Header>, hdr: nat, k: nat)
    requires hdr in headers && k + HEADER <= headers[hdr].len
    requires headers[hdr].next != 0 ==> headers[hdr].next in headers
    requires headers[hdr].next != hdr && hdr + k + HEADER != headers[hdr].next
    ensures var (r, h, a) := (SplitRecords(headers, hdr, k), headers[hdr], hdr + k + HEADER);
            && hdr in r && r[hdr] == h.(next := a, len := k)
            && a in r && r[a] == Header(h.next, hdr, h.len - k - HEADER, false, false)
            && (h.next != 0 ==> h.next in r && r[h.next] == headers[h.next].(prev := a))
            && (forall b :: b in headers && b != hdr && b != a && b != h.next ==> b in r && r[b] == headers[b])
  {
  }

  lemma LinkSplitAt(headers: map<nat, Header>, list: seq<Cell>, i: nat, size: nat, j: nat)
    requires Linked(headers, list) && i < |list| && !list[i].inUse && RoundUp(size) + HEADER <= list[i].len
    requires forall j :: 0 <= j < |list| ==> list[j].addr != list[i].addr + RoundUp(size) + HEADER
    requires At(headers, list, i) && (i + 1 < |list| ==> At(headers, list, i + 1))
    requires j <= |list|
    ensures At(SplitRecords(headers, list[i].addr, RoundUp(size)), SplitAt(list, i, size), j)
  {
    hide *;
    var t := SplitAt(list, i, size);
    SplitIndex(list, i, size);
    AtIs(headers, list, i);
    LinkedAt(headers, list, i);
    if i + 1 < |list| {
      AddressesDiffer(headers, list, i, i + 1);
      LinkedAt(headers, list, i + 1);
    }
    SplitRecordsIs(headers, list[i].addr, RoundUp(size));
    var k := if j <= i then j else j - 1;
    LinkedAt(headers, list, k);
    AtIs(headers, list, k);
    AtIs(SplitRecords(headers, list[i].addr, RoundUp(size)), t, j);
    if k != i {
      AddressesDiffer(headers, list, k, i);
    }
    if i + 1 < |list| && k != i + 1 {
      AddressesDiffer(headers, list, k, i + 1);
    }
  }

  lemma LinkSplit(headers: map<nat, Header>, list: seq<Cell>, i: nat, size: nat)
    requires Linked(headers, list) && i < |list| && !list[i].inUse && RoundUp(size) + HEADER <= list[i].len
    requires forall j :: 0 <= j < |list| ==> list[j].addr != list[i].addr + RoundUp(size) + HEADER
    requires At(headers, list, i) && (i + 1 < |list| ==> At(headers, list, i + 1))
    ensures Linked(SplitRecords(headers, list[i].addr, RoundUp(size)), SplitAt(list, i, size))
  {
    hide *;
    var t, a := SplitAt(list, i, size), list[i].addr + RoundUp(size) + HEADER;
    SplitIndex(list, i, size);
    HeaderIs();
    Around(headers, list, i);
    forall j | 0 <= j < |t| ensures At(SplitRecords(headers, list[i].addr, RoundUp(size)), t, j) && t[j].addr != 0 {
      LinkSplitAt(headers, list, i, size, j);
      LinkedAt(headers, list, if j <= i then j else j - 1);
    }
    forall j, k | 0 <= j < k < |t| ensures t[j].addr != t[k].addr {
      if j != i + 1 && k != i + 1 {
        AddressesDiffer(headers, list, if j <= i then j else j - 1, if k <= i then k else k - 1);
      }
    }
    LinkedIs(SplitRecords(headers, list[i].addr, RoundUp(size)), t);
  }

  lemma HeaderIs()
    ensures HEADER == 16 && PAGE == 4096
  {
  }

  /** The records after one swallowed the one behind it. */
  function MergeRecords(headers: map<nat, Header>, hdr: nat): map<nat, Header>
    requires hdr in headers && headers[hdr].next in headers
    requires headers[headers[hdr].next].next != 0 ==> headers[headers[hdr].next].next in headers
  {
    var gone := headers[headers[hdr].next];
    var h1 := if gone.next == 0 then headers else headers[gone.next := headers[gone.next].(prev := hdr)];
    h1[hdr := headers[hdr].(next := gone.next, len := headers[hdr].len + gone.len + HEADER)]
  }

  /** The header at `i` has one behind it, and perhaps another. */
  lemma NextTwo(headers: map<nat, Header>, list: seq<Cell>, i: nat)
    requires Linked(headers, list) && i + 1 < |list|
    ensures var (hdr, next) := (list[i].addr, list[i + 1].addr);
            && hdr in headers && next in headers && hdr != 0 && next != 0 && hdr != next
            && headers[hdr].next == next && headers[next].prev == hdr
            && headers[hdr].len == list[i].len && headers[next].len == list[i + 1].len
            && var last := headers[next].next;
               if i + 2 < |list| then
                 last == list[i + 2].addr && last != 0 && last in headers && last != hdr && last != next
               else last == 0
  {
    hide *;
    LinkedAt(headers, list, i);
    LinkedAt(headers, list, i + 1);
    AtIs(headers, list, i);
    AtIs(headers, list, i + 1);
    AddressesDiffer(headers, list, i, i + 1);
    if i + 2 < |list| {
      LinkedAt(headers, list, i + 2);
      AddressesDiffer(headers, list, i, i + 2);
      AddressesDiffer(headers, list, i + 1, i + 2);
    }
  }

  lemma MergeRecordsIs(headers: map<nat, Header>, hdr: nat, next: nat, last: nat)
    requires hdr in headers && next in headers && headers[hdr].next == next && headers[next].next == last
    requires hdr != next && last != hdr && (last != 0 ==> last in headers)
    ensures var r := MergeRecords(headers, hdr);
            && hdr in r && r[hdr] == headers[hdr].(next := last, len := headers[hdr].len + headers[next].len + HEADER)
            && (last != 0 ==> last in r && r[last] == headers[last].(prev := hdr))
            && (forall b :: b in headers && b != hdr && b != last ==> b in r && r[b] == headers[b])
  {
  }

  lemma LinkMergeAt(headers: map<nat, Header>, list: seq<Cell>, i: nat, j: nat)
    requires Linked(headers, list) && i + 1 < |list| && j < |list| - 1
    ensures var hdr := list[i].addr;
            && hdr in headers && headers[hdr].next in headers
            && (headers[headers[hdr].next].next != 0 ==> headers[headers[hdr].next].next in headers)
            && j < |MergeAt(list, i)| && At(MergeRecords(headers, hdr), MergeAt(list, i), j)
  {
    hide *;
    var t := MergeAt(list, i);
    MergeIndex(list, i);
    NextTwo(headers, list, i);
    var hdr, next := list[i].addr, list[i + 1].addr;
    MergeRecordsIs(headers, hdr, next, headers[next].next);
    var k := if j <= i then j else j + 1;
    LinkedAt(headers, list, k);
    AtIs(headers, list, k);
    AtIs(MergeRecords(headers, hdr), t, j);
    if k != i {
      AddressesDiffer(headers, list, k, i);
    }
    if i + 2 < |list| && k != i + 2 {
      AddressesDiffer(headers, list, k, i + 2);
    }
  }

  lemma LinkMerge(headers: map<nat, Header>, list: seq<Cell>, i: nat)
    requires Linked(headers, list) && i + 1 < |list|
    ensures var hdr := list[i].addr;
            && hdr in headers && headers[hdr].next in headers
            && (headers[headers[hdr].next].next != 0 ==> headers[headers[hdr].next].next in headers)
            && Linked(MergeRecords(headers, hdr), MergeAt(list, i))
  {
    hide *;
    var t := MergeAt(list, i);
    MergeIndex(list, i);
    LinkMergeAt(headers, list, i, 0);
    forall j | 0 <= j < |t| ensures At(MergeRecords(headers, list[i].addr), t, j) && t[j].addr != 0 {
      LinkMergeAt(headers, list, i, j);
      LinkedAt(headers, list, if j <= i then j else j + 1);
    }
    forall j, k | 0 <= j < k < |t| ensures t[j].addr != t[k].addr {
      AddressesDiffer(headers, list, if j <= i then j else j + 1, if k <= i then k else k + 1);
    }
    LinkedIs(MergeRecords(headers, list[i].addr), t);
  }

  /** The records after one was taken out of the list. */
  function UnlinkRecords(headers: map<nat, Header>, hdr: nat): map<nat, Header>
    requires hdr in headers && (headers[hdr].prev != 0 ==> headers[hdr].prev in headers)
    requires headers[hdr].next != 0 ==> headers[hdr].next in headers
  {
    var h := headers[hdr];
    var h1 := if h.prev == 0 then headers else headers[h.prev := headers[h.prev].(next := h.next)];
    if h.next == 0 then h1 else h1[h.next := h1[h.next].(prev := h.prev)]
  }

  lemma UnlinkRecordsIs(headers: map<nat, Header>, hdr: nat)
    requires hdr in headers && (headers[hdr].prev != 0 ==> headers[hdr].prev in headers)
    requires headers[hdr].next != 0 ==> headers[hdr].next in headers
    requires headers[hdr].next != headers[hdr].prev || headers[hdr].next == 0
    ensures var (r, h) := (UnlinkRecords(headers, hdr), headers[hdr]);
            && (h.prev != 0 ==> h.prev in r && r[h.prev] == headers[h.prev].(next := h.next))
            && (h.next != 0 ==> h.next in r && r[h.next] == headers[h.next].(prev := h.prev))
            && (forall b :: b in headers && b != h.prev && b != h.next ==> b in r && r[b] == headers[b])
  {
  }

  /** The header at `i` and its neighbours. */
  lemma Around(headers: map<nat, Header>, list: seq<Cell>, i: nat)
    requires Linked(headers, list) && i < |list|
    ensures list[i].addr in headers && list[i].addr != 0
    ensures var h := headers[list[i].addr];
            && h.len == list[i].len && h.inUse == list[i].inUse && h.start == list[i].start
            && h.next == (if i + 1 < |list| then list[i + 1].addr else 0)
            && h.prev == (if i > 0 then list[i - 1].addr else 0)
            && (i + 1 < |list| ==> h.next != 0 && h.next in headers && headers[h.next].inUse == list[i + 1].inUse
                                   && headers[h.next].start == list[i + 1].start && h.next != list[i].addr)
            && (i > 0 ==> h.prev != 0 && h.prev in headers && headers[h.prev].inUse == list[i - 1].inUse
                          && headers[h.prev].len == list[i - 1].len && h.prev != list[i].addr)
            && (h.next != 0 ==> h.next != h.prev)
  {
    hide *;
    LinkedAt(headers, list, i);
    AtIs(headers, list, i);
    if i + 1 < |list| {
      LinkedAt(headers, list, i + 1);
      AtIs(headers, list, i + 1);
      AddressesDiffer(headers, list, i, i + 1);
      if i > 0 {
        AddressesDiffer(headers, list, i - 1, i + 1);
      }
    }
    if i > 0 {
      LinkedAt(headers, list, i - 1);
      AtIs(headers, list, i - 1);
      AddressesDiffer(headers, list, i - 1, i);
    }
  }

  lemma RemoveIndex(list: seq<Cell>, i: nat)
    requires i < |list|
    ensures var t := list[..i] + list[i + 1..];
            && |t| == |list| - 1 && (forall j :: 0 <= j < i ==> t[j] == list[j])
            && (forall j :: i <= j < |t| ==> t[j] == list[j + 1])
            && AddrAt(t, 0) == (if |t| == 0 then 0 else t[0].addr)
  {
  }

  lemma LinkUnlinkAt(headers: map<nat, Header>, list: seq<Cell>, i: nat, j: nat)
    requires Linked(headers, list) && i < |list| && j < |list| - 1
    ensures var (hdr, t) := (list[i].addr, list[..i] + list[i + 1..]);
            && hdr in headers && (headers[hdr].prev != 0 ==> headers[hdr].prev in headers)
            && (headers[hdr].next != 0 ==> headers[hdr].next in headers)
            && j < |t| && At(UnlinkRecords(headers, hdr), t, j)
  {
    hide *;
    var t, hdr := list[..i] + list[i + 1..], list[i].addr;
    RemoveIndex(list, i);
    Around(headers, list, i);
    UnlinkRecordsIs(headers, hdr);
    var k := if j < i then j else j + 1;
    LinkedAt(headers, list, k);
    AtIs(headers, list, k);
    AtIs(UnlinkRecords(headers, hdr), t, j);
    if i > 0 && k != i - 1 {
      AddressesDiffer(headers, list, k, i - 1);
    }
    if i + 1 < |list| && k != i + 1 {
      AddressesDiffer(headers, list, k, i + 1);
    }
  }

  lemma LinkUnlink(headers: map<nat, Header>, list: seq<Cell>, i: nat)
    requires Linked(headers, list) && i < |list|
    ensures var hdr := list[i].addr;
            && hdr in headers && (headers[hdr].prev != 0 ==> headers[hdr].prev in headers)
            && (headers[hdr].next != 0 ==> headers[hdr].next in headers)
            && Linked(UnlinkRecords(headers, hdr), list[..i] + list[i + 1..])
            && hdr in UnlinkRecords(headers, hdr) && UnlinkRecords(headers, hdr)[hdr].len == list[i].len
  {
    hide *;
    var t, hdr := list[..i] + list[i + 1..], list[i].addr;
    RemoveIndex(list, i);
    Around(headers, list, i);
    UnlinkRecordsIs(headers, hdr);
    forall j | 0 <= j < |t| ensures At(UnlinkRecords(headers, hdr), t, j) && t[j].addr != 0 {
      LinkUnlinkAt(headers, list, i, j);
      LinkedAt(headers, list, if j < i then j else j + 1);
    }
    forall j, k | 0 <= j < k < |t| ensures t[j].addr != t[k].addr {
      AddressesDiffer(headers, list, if j < i then j else j + 1, if k < i then k else k + 1);
    }
    LinkedIs(UnlinkRecords(headers, hdr), t);
  }

  lemma LastHasNoNext(headers: map<nat, Header>, cells: seq<Cell>, i: nat)
    requires Linked(headers, cells) && i < |cells|
    ensures cells[i].addr in headers && (headers[cells[i].addr].next == 0 <==> i + 1 == |cells|)
  {
    assert At(headers, cells, i);
  }

  lemma SetUse(headers: map<nat, Header>, cells: seq<Cell>, i: nat, inUse: bool)
    requires Linked(headers, cells) && i < |cells|
    ensures var a := cells[i].addr;
            a in headers && Linked(headers[a := headers[a].(inUse := inUse)], cells[i := cells[i].(inUse := inUse)])
  {
    var a := cells[i].addr;
    assert At(headers, cells, i);
    var h, t := headers[a := headers[a].(inUse := inUse)], cells[i := cells[i].(inUse := inUse)];
    forall j | 0 <= j < |t| ensures At(h, t, j) {
      assert At(headers, cells, j);
    }
  }

  lemma JoinLists(headers: map<nat, Header>, a: seq<Cell>, b: seq<Cell>)
    requires Linked(headers, a) && Linked(headers, b) && a != [] && b != []
    requires forall i, j :: 0 <= i < |a| && 0 <= j < |b| ==> a[i].addr != b[j].addr
    ensures var l, f := a[|a| - 1].addr, b[0].addr;
            l in headers && f in headers
            && Linked(headers[l := headers[l].(next := f)][f := headers[f].(prev := l)], a + b)
  {
    var l, f := a[|a| - 1].addr, b[0].addr;
    assert At(headers, a, |a| - 1) && At(headers, b, 0);
    var headers' := headers[l := headers[l].(next := f)][f := headers[f].(prev := l)];
    forall j | 0 <= j < |a + b| ensures At(headers', a + b, j) {
      if j < |a| {
        assert At(headers, a, j);
      } else {
        assert At(headers, b, j - |a|);
      }
    }
  }

  lemma SupplyAfterNewPage(cells: seq<Cell>, supply: seq<nat>, size: nat)
    requires Tiled(cells) && Supply(cells, supply) && supply != []
    ensures Tiled(cells + NewPage(supply[0], size)) && Supply(cells + NewPage(supply[0], size), supply[1..])
    ensures FreshPage(cells, supply[0]) && NewPage(supply[0], size) != [] &&
        NewPage(supply[0], size)[0].addr == supply[0]
    ensures forall j :: 0 <= j < |NewPage(supply[0], size)| ==> PageOf(NewPage(supply[0], size)[j].addr) == supply[0]
  {
    NewPageKeepsTiling(cells, supply[0], size);
    var t := NewPage(supply[0], size);
    assert |t| == 2 ==> PageOf(t[1].addr) == supply[0];
    assert forall k :: 0 <= k < |supply| - 1 ==> supply[1..][k] == supply[k + 1];
  }

  /** What the search of `malloc` has done so far: nothing, or added the one page it needs; for a
      size that no page can hold it goes on adding pages. */
  ghost predicate Searching(s: State, cur: seq<Cell>, calls: seq<PageCall>, size: nat, supply: seq<nat>,
      rest: seq<nat>) {
    || (cur == s.cells && calls == s.calls && rest == supply)
    || (&& FirstFit(s.cells, size) == |s.cells| && supply != []
        && (size <= MAX_PAYLOAD ==>
              cur == s.cells + NewPage(supply[0], size) && calls == s.calls + [Got(supply[0])] && rest == supply[1..]))
  }

  function FirstPage(supply: seq<nat>): nat { if supply == [] then 0 else supply[0] }

  ghost predicate NoneFits(cells: seq<Cell>, n: nat, size: nat)
    requires n <= |cells|
  {
    forall j :: 0 <= j < n ==> !cells[j].Fits(size)
  }

  lemma NewPageIsEnough(cells: seq<Cell>, page: nat, size: nat)
    requires size <= MAX_PAYLOAD
    ensures (cells + NewPage(page, size))[|cells|].Fits(size)
  {
    NewPageFits(page, size);
    assert (cells + NewPage(page, size))[|cells|] == NewPage(page, size)[0];
  }

  lemma SearchFails(s: State, cur: seq<Cell>, calls: seq<PageCall>, size: nat, supply: seq<nat>, rest: seq<nat>)
    requires Searching(s, cur, calls, size, supply, rest) && rest == []
    requires NoneFits(cur, |cur|, size)
    ensures FirstFit(s.cells, size) == |s.cells| && (size <= MAX_PAYLOAD ==> supply == [])
  {
    if cur == s.cells && rest == supply {
      FirstFitIs(cur, size, |cur|);
    } else if size <= MAX_PAYLOAD {
      NewPageIsEnough(s.cells, supply[0], size);
    }
  }

  lemma SearchContinues(s: State, cur: seq<Cell>, calls: seq<PageCall>, size: nat, supply: seq<nat>, rest: seq<nat>)
    requires Searching(s, cur, calls, size, supply, rest) && rest != []
    requires NoneFits(cur, |cur|, size)
    ensures Searching(s, cur + NewPage(rest[0], size), calls + [Got(rest[0])], size, supply, rest[1..])
  {
    if cur == s.cells && rest == supply {
      FirstFitIs(cur, size, |cur|);
    } else if size <= MAX_PAYLOAD {
      NewPageIsEnough(s.cells, supply[0], size);
    }
  }

  lemma SearchEnds(s: State, cur: seq<Cell>, calls: seq<PageCall>, size: nat, supply: seq<nat>, rest: seq<nat>, i: nat)
    requires Inv(s) && Searching(s, cur, calls, size, supply, rest) && Supply(s.cells, supply)
    requires Tiled(cur) && i < |cur| && cur[i].Fits(size) && NoneFits(cur, i, size)
    ensures var page := FirstPage(supply);
            && cur[i].len % HEADER == 0
            && Mallocable(s, size, page) && i == FirstFit(s.cells, size)
            && State(TakeAt(cur, i, size), calls) == MallocState(s, size, page)
            && Inv(MallocState(s, size, page))
            && rest == (if FirstFit(s.cells, size) < |s.cells| then supply else supply[1..])
            && i < |TakeAt(cur, i, size)|
            && TakeAt(cur, i, size)[0].addr == cur[0].addr && TakeAt(cur, i, size)[i].addr == cur[i].addr
  {
    var page := FirstPage(supply);
    assert CellOk(cur[i]);
    FirstFitIs(cur, size, i);
    if cur != s.cells {
      FreshPageFits(s.cells, size, page);
    }
    MallocKeepsInv(s, size, page);
  }

  /** The record of a whole new page, and what a split of it cannot meet. */
  lemma FreshRecord(headers: map<nat, Header>, list: seq<Cell>, page: nat, needed: nat)
    requires Linked(headers, list) && FreshPage(list, page)
    ensures PAGE > HEADER
    ensures var whole := [Cell(page, MAX_PAYLOAD, false, true)];
            var h := headers[page := Header(0, 0, PAGE - HEADER, false, true)];
            && Linked(h, list) && Linked(h, whole) && RoundUp(needed) + HEADER > 0
            && NewPage(page, needed) == (if needed < PAGE - HEADER - HEADER then SplitAt(whole, 0, needed) else whole)
            && (forall j :: 0 <= j < |list| ==> list[j].addr in h && list[j].addr != page)
            && (needed < PAGE - HEADER - HEADER ==>
                  && RoundUp(needed) + HEADER <= MAX_PAYLOAD
                  && forall j :: 0 <= j < |list| ==> list[j].addr != page + RoundUp(needed) + HEADER)
  {
    var h := headers[page := Header(0, 0, PAGE - HEADER, false, true)];
    InsidePage(page, 0);
    forall j | 0 <= j < |list| ensures list[j].addr in headers && list[j].addr != page {
      LinkedAt(headers, list, j);
      assert PageOf(list[j].addr) != page;
    }
    LinkedKept(headers, h, list);
    hide PageOf, Linked;
    LinkedIs(h, [Cell(page, MAX_PAYLOAD, false, true)]);
    if needed < PAGE - HEADER - HEADER {
      InsidePage(page, RoundUp(needed) + HEADER);
      assert forall j :: 0 <= j < |list| ==> PageOf(list[j].addr) != page;
    }
  }

  lemma InsidePage(page: nat, offset: nat)
    requires page % PAGE == 0 && offset < PAGE
    ensures PageOf(page + offset) == page
  {
  }

  /** A list does not notice changes to other records. */
  lemma LinkedKept(before: map<nat, Header>, after: map<nat, Header>, list: seq<Cell>)
    requires Linked(before, list)
    requires forall j :: 0 <= j < |list| ==> list[j].addr in before && list[j].addr in after
    requires forall j :: 0 <= j < |list| ==> after[list[j].addr] == before[list[j].addr]
    ensures Linked(after, list)
  {
    forall j | 0 <= j < |list| ensures At(after, list, j) {
      assert At(before, list, j);
    }
  }

  /** `Coalesce`, as the branches of `free` decide it. */
  lemma CoalesceIs(cells: seq<Cell>, i: nat)
    requires i < |cells|
    ensures var c0 := cells[i := cells[i].(inUse := false)];
            var c1 := if i + 1 < |c0| && !c0[i + 1].inUse && !c0[i + 1].start
                         && c0[i + 1].addr == c0[i].addr + c0[i].len + HEADER
                      then MergeAt(c0, i) else c0;
            && |c0| == |cells| && c0[i].addr == cells[i].addr && i < |c1|
            && (i > 0 ==> MergeAt(c1, i - 1)[i - 1].addr == c1[i - 1].addr)
            && Coalesce(cells, i) ==
               (if !c1[i].start && i > 0 && !c1[i - 1].inUse && c1[i].addr == c1[i - 1].addr + c1[i - 1].len + HEADER
                then (MergeAt(c1, i - 1), i - 1) else (c1, i))
            && c1[i].addr == cells[i].addr && Coalesce(cells, i).0[0].addr == cells[0].addr
  {
  }

  class Allocator {
    var headers: map<nat, Header>
    var firstHeader: nat
    var calls: seq<PageCall>
    ghost var cells: seq<Cell>

    ghost predicate Valid()
      reads this
    {
      && firstHeader == AddrAt(cells, 0)
      && Linked(headers, cells)
      && Inv(Current())
    }

    ghost function Current(): State
      reads this
    {
      State(cells, calls)
    }

    constructor ()
      ensures Valid() && Current() == State([], [])
    {
      headers, firstHeader, calls, cells := map[], 0, [], [];
    }

    method SplitHeader(hdr: nat, size: nat, ghost list: seq<Cell>, ghost i: nat) returns (ok: bool)
      requires Linked(headers, list) && i < |list| && list[i].addr == hdr
      requires forall j :: 0 <= j < |list| ==> list[j].addr != hdr + RoundUp(size) + HEADER
      modifies this`headers
      ensures ok <==> !list[i].inUse && RoundUp(size) + HEADER <= list[i].len
      ensures ok ==> Linked(headers, SplitAt(list, i, size))
      ensures forall a :: a in old(headers) && a != hdr + RoundUp(size) + HEADER
                && (forall j :: 0 <= j < |list| ==> list[j].addr != a)
                ==> a in headers && headers[a] == old(headers)[a]
    {
      hide RoundUp;
      assert At(headers, list, i);
      if headers[hdr].inUse {
        return false;
      }
      var split := RoundUp(size);
      if headers[hdr].len < split + HEADER {
        return false;
      }
      assert i + 1 < |list| ==> At(headers, list, i + 1);
      LinkSplit(headers, list, i, size);
      var newHeader := hdr + split + HEADER;
      var h := headers[hdr];
      headers := headers[newHeader := Header(h.next, hdr, h.len - split - HEADER, false, false)];
      if h.next != 0 {
        headers := headers[h.next := headers[h.next].(prev := newHeader)];
      }
      headers := headers[hdr := headers[hdr].(next := newHeader, len := split)];
      ok := true;
    }

    method AllocateMoreMem(needed: nat, page: nat, ghost list: seq<Cell>) returns (hdr: nat)
      requires Tiled(list) && Linked(headers, list) && FreshPage(list, page)
      modifies this`headers, this`calls
      ensures hdr == page && calls == old(calls) + [Got(page)]
      ensures Linked(headers, list) && Linked(headers, NewPage(page, needed))
    {
      hide *;
      FreshRecord(headers, list, page, needed);
      calls := calls + [Got(page)];
      hdr := page;
      headers := headers[hdr := Header(0, 0, PAGE - HEADER, false, true)];
      if needed < headers[hdr].len - HEADER {
        ghost var before := headers;
        var ok := SplitHeader(hdr, needed, [Cell(page, MAX_PAYLOAD, false, true)], 0);
        LinkedKept(before, headers, list);
      }
    }

    /** hdr->next = allocate_more_mem(size); hdr->next->prev = hdr, on the last header `hdr`. */
    method Extend(hdr: nat, size: nat, page: nat, ghost cur: seq<Cell>)
      requires Tiled(cur) && Linked(headers, cur) && FreshPage(cur, page)
      requires cur != [] && hdr == cur[|cur| - 1].addr
      requires Tiled(cur + NewPage(page, size))
      modifies this`headers, this`calls
      ensures Linked(headers, cur + NewPage(page, size)) && calls == old(calls) + [Got(page)]
    {
      var more := AllocateMoreMem(size, page, cur);
      DistinctAddresses(cur + NewPage(page, size));
      forall i, j | 0 <= i < |cur| &&
          0 <= j < |NewPage(page, size)| ensures cur[i].addr != NewPage(page, size)[j].addr {
        assert (cur + NewPage(page, size))[|cur| + j] == NewPage(page, size)[j];
      }
      JoinLists(headers, cur, NewPage(page, size));
      headers := headers[hdr := headers[hdr].(next := more)];
      headers := headers[more := headers[more].(prev := hdr)];
    }

    /** The end of `malloc`: split the header that fits if it is too long, and mark it. */
    method Claim(hdr: nat, size: nat, ghost cur: seq<Cell>, ghost i: nat)
      requires Tiled(cur) && Linked(headers, cur) && i < |cur| && hdr == cur[i].addr && cur[i].Fits(size)
      requires cur[i].len % HEADER == 0
      modifies this`headers
      ensures Linked(headers, TakeAt(cur, i, size))
    {
      assert At(headers, cur, i);
      ghost var t := cur;
      if headers[hdr].len > size + HEADER {
        SplitKeepsTiling(cur, i, size);
        var ok := SplitHeader(hdr, size, cur, i);
        t := SplitAt(cur, i, size);
      }
      SetUse(headers, t, i, true);
      headers := headers[hdr := headers[hdr].(inUse := true)];
    }

    /** The loop of `malloc`, from the first header: find a header that fits, extending the list
        with fresh pages when it ends. */
    method FindFit(size: nat, supply: seq<nat>, supplyLeft: seq<nat>, ghost s: State, ghost start: seq<Cell>)
      returns (r: MallocResult, rest: seq<nat>, ghost cur: seq<Cell>, ghost i: nat)
      requires Tiled(start) && Linked(headers, start) && start != [] && firstHeader == start[0].addr
      requires Supply(start, supplyLeft) && Searching(s, start, calls, size, supply, supplyLeft)
      modifies this`headers, this`calls
      ensures r.OutOfMemory? ==> FirstFit(s.cells, size) == |s.cells| && (size <= MAX_PAYLOAD ==> supply == [])
      ensures r.Block? ==>
                && Tiled(cur) && Linked(headers, cur) && i < |cur| && r.ptr == cur[i].Payload() &&
                  firstHeader == cur[0].addr
                && cur[i].Fits(size) && NoneFits(cur, i, size) && Searching(s, cur, calls, size, supply, rest)
    {
      hide Tiled, CellOk, NewPage, Searching, Supply;
      var hdr := firstHeader;
      rest, cur, i := supplyLeft, start, 0;
      assert At(headers, cur, 0);
      while headers[hdr].inUse || headers[hdr].len < size
        invariant Tiled(cur) && Linked(headers, cur) && i < |cur| && hdr == cur[i].addr
        invariant firstHeader == cur[0].addr && At(headers, cur, i)
        invariant NoneFits(cur, i, size)
        invariant Supply(cur, rest)
        invariant Searching(s, cur, calls, size, supply, rest)
        decreases |rest|, |cur| - i
      {
        assert NoneFits(cur, i + 1, size);
        LastHasNoNext(headers, cur, i);
        if headers[hdr].next == 0 {
          if rest == [] {
            SearchFails(s, cur, calls, size, supply, rest);
            return OutOfMemory, rest, cur, i;
          }
          SearchContinues(s, cur, calls, size, supply, rest);
          SupplyAfterNewPage(cur, rest, size);
          Extend(hdr, size, rest[0], cur);
          cur, rest := cur + NewPage(rest[0], size), rest[1..];
          assert At(headers, cur, i);
        }
        hdr, i := headers[hdr].next, i + 1;
        assert At(headers, cur, i);
      }
      r := Block(hdr + HEADER);
    }

    method Malloc(size: nat, supply: seq<nat>) returns (r: MallocResult, rest: seq<nat>)
      requires Valid() && Supply(cells, supply)
      modifies this
      ensures r.Block? <==> FirstFit(old(cells), size) < |old(cells)| || (size <= MAX_PAYLOAD && supply != [])
      ensures r.Block? ==>
                && Valid()
                && Current() == MallocState(old(Current()), size, FirstPage(supply))
                && r.ptr == cells[FirstFit(old(cells), size)].Payload()
                && rest == if FirstFit(old(cells), size) < |old(cells)| then supply else supply[1..]
      ensures r.Block? ==>
                exists b :: b !in LiveBlocks(old(cells)) && b.0 == r.ptr && size <= b.1 <= size + 16
                            && LiveBlocks(cells) == LiveBlocks(old(cells)) + {b}
    {
      hide Tiled, Coalesced, NoFreePage, HeldPages, TakeAt, NewPage, Pages, CellOk;
      rest := supply;
      ghost var s, cur, i := Current(), cells, 0;
      if firstHeader == 0 {
        if rest == [] {
          return OutOfMemory, rest;
        }
        SupplyAfterNewPage(cur, rest, size);
        FirstFitIs(cur, size, 0);
        firstHeader := AllocateMoreMem(size, rest[0], cur);
        cur, rest := NewPage(rest[0], size), rest[1..];
        assert s.cells + cur == cur;
      }
      r, rest, cur, i := FindFit(size, supply, rest, s, cur);
      if r.Block? {
        SearchEnds(s, cur, calls, size, supply, rest, i);
        Claim(r.ptr - HEADER, size, cur, i);
        cells := TakeAt(cur, i, size);
        assert Current() == MallocState(s, size, FirstPage(supply));
        NewBlock(s, size, FirstPage(supply), r.ptr);
      }
    }

    /** Swallow the header after `hdr`. */
    method MergeNext(hdr: nat, ghost list: seq<Cell>, ghost i: nat)
      requires Linked(headers, list) && i + 1 < |list| && hdr == list[i].addr
      modifies this`headers
      ensures Linked(headers, MergeAt(list, i))
    {
      LinkMerge(headers, list, i);
      NextTwo(headers, list, i);
      hide Linked, MergeAt;
      ghost var before := headers;
      var next := headers[hdr].next;
      var nextNext := headers[next].next;
      if nextNext != 0 {
        headers := headers[nextNext := headers[nextNext].(prev := hdr)];
      }
      headers := headers[hdr := headers[hdr].(len := headers[hdr].len + headers[next].len + HEADER)];
      headers := headers[hdr := headers[hdr].(next := nextNext)];
      assert headers == MergeRecords(before, hdr);
    }

    /** Let the header before `hdr` swallow it. */
    method MergePrev(hdr: nat, ghost list: seq<Cell>, ghost i: nat)
      requires Linked(headers, list) && i + 1 < |list| && hdr == list[i + 1].addr
      modifies this`headers
      ensures Linked(headers, MergeAt(list, i))
    {
      LinkMerge(headers, list, i);
      NextTwo(headers, list, i);
      hide Linked, MergeAt;
      ghost var before := headers;
      var prev, next := headers[hdr].prev, headers[hdr].next;
      headers := headers[prev := headers[prev].(next := next)];
      headers := headers[prev := headers[prev].(len := headers[prev].len + headers[hdr].len + HEADER)];
      if next != 0 {
        headers := headers[next := headers[next].(prev := prev)];
      }
      assert headers == MergeRecords(before, prev);
    }

    /** Take a header out of the list. */
    method Unlink(hdr: nat, ghost list: seq<Cell>, ghost i: nat)
      requires Linked(headers, list) && i < |list| && hdr == list[i].addr && firstHeader == list[0].addr
      modifies this`headers, this`firstHeader
      ensures Linked(headers, list[..i] + list[i + 1..]) && firstHeader == AddrAt(list[..i] + list[i + 1..], 0)
      ensures hdr in headers && headers[hdr].len == list[i].len
    {
      LinkUnlink(headers, list, i);
      RemoveIndex(list, i);
      Around(headers, list, i);
      if i > 0 {
        AddressesDiffer(headers, list, 0, i);
      }
      hide Linked, AddrAt;
      ghost var before := headers;
      var h := headers[hdr];
      if h.prev != 0 {
        headers := headers[h.prev := headers[h.prev].(next := h.next)];
      }
      if h.next != 0 {
        headers := headers[h.next := headers[h.next].(prev := h.prev)];
      }
      if hdr == firstHeader {
        firstHeader := h.next;
      }
      assert headers == UnlinkRecords(before, hdr);
    }

    method FindBlock(ptr: nat) returns (hdr: nat)
      requires Valid() && cells != []
      ensures hdr == cells[if BlockAt(cells, ptr) < |cells| then BlockAt(cells, ptr) else |cells| - 1].addr
    {
      hdr := firstHeader;
      ghost var i := 0;
      assert At(headers, cells, 0);
      while headers[hdr].next != 0 && hdr + HEADER != ptr
        invariant i < |cells| && hdr == cells[i].addr && At(headers, cells, i)
        invariant i <= BlockAt(cells, ptr)
        decreases |cells| - i
      {
        LastHasNoNext(headers, cells, i);
        hdr, i := headers[hdr].next, i + 1;
        assert At(headers, cells, i);
      }
      LastHasNoNext(headers, cells, i);
    }

    method FreeAndMerge(freed: nat, ghost i: nat) returns (hdr: nat)
      requires Valid() && i < |cells| && cells[i].inUse && freed == cells[i].addr
      modifies this`headers
      ensures Linked(headers, Coalesce(cells, i).0) && hdr == Coalesce(cells, i).0[Coalesce(cells, i).1].addr
      ensures Coalesce(cells, i).0[0].addr == cells[0].addr
    {
      hide *;
      RecordsLinked();
      hdr := freed;
      SetUse(headers, cells, i, false);
      headers := headers[hdr := headers[hdr].(inUse := false)];
      ghost var list := cells[i := cells[i].(inUse := false)];
      CoalesceIs(cells, i);
      HeaderIs();
      Around(headers, list, i);
      var next := headers[hdr].next;
      if next != 0 && !headers[next].inUse && !headers[next].start && next == hdr + headers[hdr].len + HEADER {
        MergeNext(hdr, list, i);
        list := MergeAt(list, i);
      }
      Around(headers, list, i);
      var prev := headers[hdr].prev;
      if !headers[hdr].start && prev != 0 && !headers[prev].inUse && hdr == prev + headers[prev].len + HEADER {
        MergePrev(hdr, list, i - 1);
        hdr := prev;
      }
    }

    lemma RecordsLinked()
      requires Valid()
      ensures Linked(headers, cells)
    {
    }

    /** Hand the page of `hdr` back if all of it is free.  No header is longer than its page, so
        the branch of `free` that cuts one page off a longer header is dead. */
    method ReturnPage(hdr: nat, ghost list: seq<Cell>, ghost i: nat)
      requires Tiled(list) && Linked(headers, list) && i < |list| && hdr == list[i].addr && firstHeader == list[0].addr
      modifies this`headers, this`firstHeader, this`calls
      ensures var s' := Return(list, i, old(calls));
              Linked(headers, s'.cells) && firstHeader == AddrAt(s'.cells, 0) && calls == s'.calls
    {
      assert At(headers, list, i) && CellOk(list[i]);
      if headers[hdr].start && headers[hdr].len >= PAGE - HEADER {
        if headers[hdr].len == PAGE - HEADER {
          Unlink(hdr, list, i);
          calls := calls + [Returned(hdr, headers[hdr].len + HEADER)];
        } else {
          assert false;
        }
      }
    }

    /** The rest of `free`, once the header is found. */
    method FreeFound(freed: nat, ghost b: nat)
      requires Valid() && b < |cells| && cells[b].inUse && freed == cells[b].addr
      modifies this
      ensures Valid() && Current() == FreeState(old(Current()), b)
    {
      hide Tiled, Coalesced, NoFreePage, HeldPages, Pages, Linked, Coalesce, CoalescedExcept, Return;
      FreeKeepsInv(Current(), b);
      CoalesceKeeps(cells, b);
      var hdr := FreeAndMerge(freed, b);
      ReturnPage(hdr, Coalesce(cells, b).0, Coalesce(cells, b).1);
      cells := FreeState(old(Current()), b).cells;
    }

    /** `ok` is false where the allocator aborts the kernel. */
    method Free(ptr: nat) returns (ok: bool)
      requires Valid()
      modifies this
      ensures ok <==>
                ptr == 0 || exists i :: 0 <= i < |old(cells)| && old(cells)[i].inUse && old(cells)[i].addr + HEADER == ptr
      ensures ok ==> Valid()
      ensures ok ==> LiveBlocks(cells) == set b | b in LiveBlocks(old(cells)) && (ptr == 0 || b.0 != ptr)
      ensures ok ==>
                Current() == if ptr == 0 then old(Current()) else FreeState(old(Current()), BlockAt(old(cells), ptr))
    {
      FreeIs(Current(), ptr);
      hide Tiled, Coalesced, NoFreePage, HeldPages, Pages, CellOk, FreeState, LiveBlocks;
      if ptr == 0 {
        return true;
      }
      if firstHeader == 0 {
        return false;
      }
      ghost var b := BlockAt(cells, ptr);
      var hdr := FindBlock(ptr);
      LastHasNoNext(headers, cells, if b < |cells| then b else |cells| - 1);
      if hdr + HEADER != ptr {
        return false;
      }
      assert At(headers, cells, b);
      if !headers[hdr].inUse {
        return false;
      }
      FreeFound(hdr, b);
      ok := true;
    }
  }

  /** The block that `malloc` returns. */
  lemma NewBlock(s: State, size: nat, page: nat, ptr: nat)
    requires Inv(s) && Mallocable(s, size, page)
    requires var (i, c) := (FirstFit(s.cells, size), MallocState(s, size, page).cells); i < |c| && ptr == c[i].Payload()
    ensures exists b :: b !in LiveBlocks(s.cells) && b.0 == ptr && size <= b.1 <= size + 16
                        && LiveBlocks(MallocState(s, size, page).cells) == LiveBlocks(s.cells) + {b}
  {
    MallocAddsOneBlock(s, size, page);
    hide LiveBlocks, MallocState, FirstFit, Inv, Mallocable;
    var c := MallocState(s, size, page).cells[FirstFit(s.cells, size)];
    assert (c.Payload(), c.len) !in LiveBlocks(s.cells);
  }

  /** When `free` succeeds, and what it leaves. */
  lemma FreeIs(s: State, ptr: nat)
    requires Inv(s)
    ensures var b := BlockAt(s.cells, ptr);
            && ((exists i :: 0 <= i < |s.cells| && s.cells[i].inUse && s.cells[i].addr + HEADER == ptr) <==>
                  b < |s.cells| && s.cells[b].inUse)
            && (b < |s.cells| && s.cells[b].inUse ==>
                  LiveBlocks(FreeState(s, b).cells) == set b | b in LiveBlocks(s.cells) && b.0 != ptr)
  {
    FindsLive(s.cells, ptr);
    if PointsToLive(s.cells, ptr) {
      FreeRemovesPointed(s, ptr);
    }
    hide Coalesced, NoFreePage, HeldPages, Pages, FreeState, LiveBlocks;
  }
}
