/** The i386 address space: page numbers, page table entries, and what the search for free
    virtual memory returns.  A page number is an address divided by the page size. */
module PagingModel {
  import opened Machine

  const WINDOW: nat := 0xF_FC00           // first page of the recursive mapping at 0xFFC00000

  /** The virtual pages below the window that are present, and the frame each one maps to. */
  type VMap = map<nat, nat>

  predicate Mapped(m: VMap, p: nat) { p in m || p >= WINDOW }

  /** `bytes_to_pages`, with its guard against 32-bit overflow. */
  function BytesToPages(bytes: nat): nat {
    if 0xFFFF_FFFF < bytes + (PAGE - 1) then 0xFFFF_FFFF / PAGE else (bytes + (PAGE - 1)) / PAGE
  }

  /** `page::operator++`, which saturates at the end of the address space. */
  function NextPage(a: nat): nat {
    if a <= 0xFFFF_FFFF - PAGE then a + PAGE else 0xFFFF_FFFF
  }

  function Ceil(bytes: nat): nat { (bytes + (PAGE - 1)) / PAGE }

  function PageNo(a: nat): nat { a / PAGE }

  function AddressOf(page: nat): nat { page * PAGE }

  lemma PageStep(k: nat)
    ensures PageNo(AddressOf(k)) == k && AddressOf(k) % PAGE == 0 && AddressOf(k + 1) == AddressOf(k) + PAGE
    ensures k < WINDOW ==> NextPage(AddressOf(k)) == AddressOf(k + 1) < SPACE
  {
  }

  lemma PageOfAddress(a: nat)
    requires a < SPACE
    ensures PageNo(a) < PAGES && AddressOf(PageNo(a)) < SPACE
  {
  }

  lemma PageAbove(a: nat, k: nat)
    ensures AddressOf(PageNo(a) + k) > a <==> k > 0
  {
  }

  lemma NextPageIs(a: nat)
    requires a % PAGE == 0 && a < SPACE - PAGE
    ensures NextPage(a) == a + PAGE && NextPage(a) / PAGE == a / PAGE + 1 && NextPage(a) % PAGE == 0
  {
  }

  /** The last page `free_from_here` checks, computed in 32 bits. */
  function LastNeeded(base: nat, needed: nat): nat {
    var last := (base + needed) % SPACE / PAGE * PAGE;
    if needed % PAGE != 0 then NextPage(last) else last
  }

  lemma LastNeededIs(base: nat, needed: nat)
    requires base % PAGE == 0 && base + needed <= SPACE && needed < SPACE
    ensures base + needed == SPACE ==> LastNeeded(base, needed) == 0
    ensures base + needed < SPACE ==>
              LastNeeded(base, needed) / PAGE == Min(base / PAGE + Ceil(needed), PAGES - 1)
              && LastNeeded(base, needed) >= base
  {
    var k, q, r := base / PAGE, needed / PAGE, needed % PAGE;
    Pieces(base);
    Pieces(needed);
    CeilIs(needed);
    if base + needed < SPACE {
      FloorIs(base + needed, k + q);
      SmallMod(base + needed);
      hide Ceil;
      assert (base + needed) % SPACE / PAGE * PAGE == (k + q) * PAGE;
      if r != 0 {
        NextPageOf(k + q);
      } else {
        FloorIs((k + q) * PAGE, k + q);
      }
    }
  }

  lemma Pieces(a: nat)
    ensures a == a / PAGE * PAGE + a % PAGE && a % PAGE < PAGE
  {
  }

  lemma FloorIs(a: nat, k: nat)
    requires k * PAGE <= a < (k + 1) * PAGE
    ensures a / PAGE == k
  {
  }

  lemma SmallMod(a: nat)
    requires a < SPACE
    ensures a % SPACE == a
  {
  }

  lemma CeilIs(bytes: nat)
    ensures Ceil(bytes) == bytes / PAGE + (if bytes % PAGE == 0 then 0 else 1)
  {
  }

  /** The last page of the space has no next one: the increment saturates inside it. */
  lemma NextPageOf(k: nat)
    requires k < PAGES
    ensures NextPage(k * PAGE) / PAGE == Min(k + 1, PAGES - 1) && NextPage(k * PAGE) >= k * PAGE
  {
  }

  // ---------- Searching for unmapped pages ----------

  /** The pages `free_from_here` looks at, which include one past the end, are all unmapped. */
  ghost predicate Fits(m: VMap, b: nat, len: nat) {
    forall p :: b <= p <= b + Ceil(len) ==> !Mapped(m, p)
  }

  /** The lowest page from `b` up where `len` bytes fit, or WINDOW. */
  ghost function FirstFit(m: VMap, b: nat, len: nat): (r: nat)
    requires b <= WINDOW
    ensures b <= r <= WINDOW
    ensures r < WINDOW ==> Fits(m, r, len)
    ensures forall c :: b <= c < r ==> !Fits(m, c, len)
    decreases WINDOW - b
  {
    if b == WINDOW || Fits(m, b, len) then b else FirstFit(m, b + 1, len)
  }

  /** When a range ends exactly at 4 GiB its last page wraps to zero and nothing at all is checked.
      The search gets there for these lengths, unless it jumps over that base. */
  predicate EndsUnchecked(m: VMap, len: nat) {
    && len % PAGE == 0 && 2 * PAGE <= len <= SPACE - PAGE
    && (len == SPACE - PAGE || Mapped(m, (SPACE - len) / PAGE - 1))
  }

  /** The address `find_free_virtmem` returns; 0 is the null pointer. */
  ghost function FindResult(m: VMap, len: nat): nat {
    var b := FirstFit(m, 1, len);
    if b < WINDOW then b * PAGE
    else if EndsUnchecked(m, len) then SPACE - len
    else 0
  }

  lemma NothingFitsFromWindow(m: VMap, len: nat)
    ensures forall b :: b >= WINDOW ==> !Fits(m, b, len)
  {
    forall b | b >= WINDOW ensures !Fits(m, b, len) {
      assert Mapped(m, b);
    }
  }

  lemma FirstFitIs(m: VMap, b: nat, len: nat)
    requires 1 <= b
    requires forall c :: 1 <= c < b ==> !Fits(m, c, len)
    ensures Fits(m, b, len) ==> b < WINDOW && FirstFit(m, 1, len) == b
    ensures (forall c :: b <= c ==> !Fits(m, c, len)) ==> FirstFit(m, 1, len) == WINDOW
  {
    NothingFitsFromWindow(m, len);
  }

  /** What the search knows when it gets to base `b`. */
  ghost predicate SearchedTo(m: VMap, b: nat, len: nat) {
    && 1 <= b
    && (forall c :: 1 <= c < b ==> !Fits(m, c, len))
    && (b == 1 || Mapped(m, b - 1))
    && (EndsUnchecked(m, len) ==> b * PAGE <= SPACE - len)
  }

  lemma SearchStarts(m: VMap, len: nat)
    ensures SearchedTo(m, 1, len)
  {
  }

  /** When `q` is the first mapped page of the range from `b`, no start up to `q` is valid. */
  lemma SearchMovesOn(m: VMap, b: nat, q: nat, len: nat)
    requires SearchedTo(m, b, len) && b * PAGE + len < SPACE && b < PAGES - 1
    requires b <= q <= b + Ceil(len) && Mapped(m, q)
    requires forall p :: b <= p < q ==> !Mapped(m, p)
    ensures SearchedTo(m, q + 1, len)
    ensures q < PAGES - 1
  {
    assert b < q ==> !Mapped(m, q - 1);
    assert forall c :: b <= c <= q ==> !Fits(m, c, len);
    if EndsUnchecked(m, len) {
      var k: nat := (SPACE - len) / PAGE - 1;
      assert b <= k < q ==> !Mapped(m, k);
    }
  }

  /** The search at base `b` succeeds. */
  lemma FoundResult(m: VMap, b: nat, len: nat)
    requires SearchedTo(m, b, len) && b < PAGES - 1
    requires b * PAGE + len == SPACE || (b * PAGE + len < SPACE && Fits(m, b, len))
    ensures FindResult(m, len) == b * PAGE
  {
    FirstFitIs(m, b, len);
    if b * PAGE + len == SPACE {
      forall c | b <= c ensures !Fits(m, c, len) {
        assert Ceil(len) == PAGES - b;
        assert Mapped(m, c + Ceil(len));
      }
    }
  }

  /** The search ends at base `b` because nothing from there on can be free. */
  lemma NotFoundResult(m: VMap, b: nat, len: nat)
    requires SearchedTo(m, b, len) && (b >= PAGES - 1 || b * PAGE + len > SPACE)
    ensures FindResult(m, len) == 0
  {
    forall c | b <= c ensures !Fits(m, c, len) {
      assert Mapped(m, c + Ceil(len));
    }
    FirstFitIs(m, b, len);
  }

  /** The address returned is the start of unmapped pages exactly when the range does not end at
      4 GiB, and when some range is free it is the lowest one: the search never skips a valid start. */
  lemma {:induction false} SearchIsFirstFit(m: VMap, len: nat)
    ensures var r := FindResult(m, len);
            && r % PAGE == 0
            && (r != 0 ==> (Fits(m, r / PAGE, len) <==> r + len != SPACE))
            && (forall b :: 1 <= b && Fits(m, b, len) ==> r != 0 && r / PAGE <= b)
  {
    NothingFitsFromWindow(m, len);
    var r := FindResult(m, len);
    var b := FirstFit(m, 1, len);
    if b < WINDOW {
      FitsEndsBelowWindow(m, b, len);
    } else if EndsUnchecked(m, len) {
      assert Mapped(m, PAGES - 1);
      assert r / PAGE + Ceil(len) == PAGES;
    }
  }

  lemma FitsEndsBelowWindow(m: VMap, b: nat, len: nat)
    requires Fits(m, b, len)
    ensures b + Ceil(len) < WINDOW && b * PAGE + len < SPACE
  {
    assert !Mapped(m, b + Ceil(len));
  }

  /** The smallest instance of the fault: with every page mapped, a search for two pages still
      succeeds, and returns an address inside the window that holds the page tables. */
  lemma FullSpaceStillFound(m: VMap)
    requires forall p :: 1 <= p < WINDOW ==> p in m
    ensures FindResult(m, 2 * PAGE) == 0xFFFF_E000
    ensures !Fits(m, 0xFFFF_E000 / PAGE, 2 * PAGE)
  {
    forall b | 1 <= b ensures !Fits(m, b, 2 * PAGE) {
      assert Mapped(m, b);
    }
    FirstFitIs(m, 1, 2 * PAGE);
  }

  /** The search wants one page more than the range has: between the start and page 3 there are two free
      pages, and a range of two pages goes behind that page. */
  lemma OnePageMore()
    ensures var m: VMap := map[3 := 7]; FindResult(m, 0x1000) == 0x1000 && FindResult(m, 0x2000) == 0x4000
  {
    hide *;
    var m: VMap := map[3 := 7];
    FitsIs(m, 1, 0x1000);
    FirstFitIs(m, 1, 0x1000);
    forall c | 1 <= c < 4 ensures !Fits(m, c, 0x2000) {
      FitsIs(m, c, 0x2000);
      assert 3 in m;
    }
    FitsIs(m, 4, 0x2000);
    FirstFitIs(m, 4, 0x2000);
    FoundAt(m, 1, 0x1000);
    FoundAt(m, 4, 0x2000);
  }

  lemma FoundAt(m: VMap, b: nat, len: nat)
    requires FirstFit(m, 1, len) == b < WINDOW
    ensures FindResult(m, len) == b * 0x1000
  {
  }

  /** The pages a range of `len` bytes from page `b` needs to be free: one more than it has, and all of
      them below the window. */
  lemma FitsIs(m: VMap, b: nat, len: nat)
    ensures Fits(m, b, len) <==> forall p :: b <= p <= b + (len + 4095) / 4096 ==> p !in m && p < 0xF_FC00
  {
    if Fits(m, b, len) {
      forall p | b <= p <= b + (len + 4095) / 4096 ensures p !in m && p < 0xF_FC00 {
        assert !Mapped(m, p);
      }
    } else {
      var p :| b <= p <= b + Ceil(len) && Mapped(m, p);
      assert p in m || p >= 0xF_FC00;
    }
  }

  // ---------- Mapping a range ----------

  datatype MapResult = MapSuccess | AlreadyMapped | NotMapped | NoVirtMem | InvalidOption | InvalidAlign

  function Min(a: nat, b: nat): nat { if a < b then a else b }

  /** The frame of page `p` in a range that starts at page `v` and frame `f`. */
  function FrameAt(v: nat, f: nat, p: nat): nat
    requires v <= p
  {
    Min(f + p - v, PAGES - 1)
  }

  function Range(v: nat, f: nat, n: nat): VMap {
    map p: nat | v <= p < v + n :: FrameAt(v, f, p)
  }

  function WithRange(m: VMap, v: nat, f: nat, n: nat): VMap { m + Range(v, f, n) }

  lemma RangeGrows(m: VMap, v: nat, f: nat, n: nat)
    ensures WithRange(m, v, f, n)[v + n := FrameAt(v, f, v + n)] == WithRange(m, v, f, n + 1)
  {
  }

  lemma RangeEmpty(m: VMap, v: nat, f: nat)
    ensures WithRange(m, v, f, 0) == m && NoneMapped(m, v, 0)
  {
  }

  lemma NotInRange(m: VMap, v: nat, f: nat, n: nat)
    ensures Mapped(WithRange(m, v, f, n), v + n) == Mapped(m, v + n)
    ensures !Mapped(m, v + n) ==> v + n < WINDOW
  {
  }

  lemma NoneMappedGrows(m: VMap, v: nat, n: nat)
    ensures NoneMapped(m, v, n) && !Mapped(m, v + n) ==> NoneMapped(m, v, n + 1)
  {
  }

  lemma FrameStart(f: nat)
    requires f < PAGES
    ensures FrameIs(AddressOf(f), f, 0)
  {
  }

  lemma RangeShrinks(m: VMap, v: nat, f: nat, k: nat, n: nat)
    requires NoneMapped(m, v, n) && k < n
    ensures v + k in WithRange(m, v, f, k + 1) && v + k < WINDOW
    ensures WithRange(m, v, f, k + 1) - {v + k} == WithRange(m, v, f, k)
  {
    assert !Mapped(m, v + k);
    RangeGrows(m, v, f, k);
    assert v + k !in WithRange(m, v, f, k);
    hide WithRange, FrameAt;
    AddThenRemove(WithRange(m, v, f, k), v + k, FrameAt(v, f, v + k));
  }

  lemma AddThenRemove(m: VMap, p: nat, f: nat)
    requires p !in m
    ensures m[p := f] - {p} == m && p in m[p := f]
  {
  }

  ghost predicate NoneMapped(m: VMap, v: nat, n: nat) {
    forall p :: v <= p < v + n ==> !Mapped(m, p)
  }

  /** The page object that walks over the frames after `i` increments from frame `f`. */
  ghost predicate FrameIs(a: nat, f: nat, i: nat) {
    if f + i < PAGES then a == (f + i) * PAGE else a == 0xFFFF_FFFF
  }

  lemma FrameNext(a: nat, v: nat, f: nat, i: nat)
    requires FrameIs(a, f, i) && f < PAGES
    ensures FrameIs(NextPage(a), f, i + 1) && PageNo(a) == FrameAt(v, f, v + i)
  {
  }

  lemma BytesToPagesBound(len: nat)
    ensures BytesToPages(len) <= Ceil(len)
    ensures len <= SPACE - PAGE ==> BytesToPages(len) == Ceil(len)
  {
  }

  lemma NotFree(m: VMap, v: nat, count: nat, len: nat)
    requires count < BytesToPages(len) && Mapped(m, v + count)
    ensures !Fits(m, v, len)
  {
    BytesToPagesBound(len);
  }

  /** If every page of a range could be mapped, it was not one that ends unchecked at 4 GiB. */
  lemma AllFree(m: VMap, v: nat, n: nat, len: nat)
    requires n == BytesToPages(len) && NoneMapped(m, v, n) && v < PAGES && len < SPACE
    requires AddressOf(v) + len == SPACE || Fits(m, v, len)
    ensures Fits(m, v, len)
  {
    BytesToPagesBound(len);
    if v * PAGE + len == SPACE {
      assert Ceil(len) == PAGES - v;
      assert Mapped(m, PAGES - 1);
    }
  }

  lemma FindResultIs(m: VMap, len: nat)
    requires len < SPACE
    ensures FindResult(m, len) % PAGE == 0 && FindResult(m, len) < SPACE
  {
    var b := FirstFit(m, 1, len);
    hide Fits, Mapped, FirstFit;
    if b == WINDOW && EndsUnchecked(m, len) {
      EndAligned(len);
    }
  }

  lemma EndAligned(len: nat)
    requires len % PAGE == 0 && 0 < len < SPACE
    ensures (SPACE - len) % PAGE == 0
  {
  }

  lemma WithoutNone(m: VMap, v: nat)
    ensures Without(m, v, 0) == m
  {
  }

  lemma PageStart(a: nat)
    ensures AddressOf(PageNo(a)) == a / PAGE * PAGE && PageNo(a) == a / PAGE
  {
  }

  /** `map_range`, with the page of the address returned. */
  lemma MapRangeIs(m: VMap, phys: nat, len: nat)
    requires len < SPACE && phys < SPACE
    ensures var span := SpanOf(phys, len);
            var base := FindResult(m, span);
            var virt := base + phys % PAGE;
            && span == (len + phys % PAGE) % SPACE < SPACE && base < SPACE && virt % PAGE == phys % PAGE && virt < SPACE
            && MapRangeResult(m, phys, len) ==
               if base == 0 then (NoVirtMem, 0, m)
               else if Fits(m, virt / PAGE, span) then
                 (MapSuccess, virt, WithRange(m, virt / PAGE, phys / PAGE, BytesToPages(span)))
               else (AlreadyMapped, virt, m)
  {
    var span := SpanOf(phys, len);
    FindResultIs(m, span);
    hide FindResult, Fits;
    OffsetIn(FindResult(m, span), phys % PAGE);
  }

  lemma OffsetIn(base: nat, offset: nat)
    requires base % PAGE == 0 && base < SPACE && offset < PAGE
    ensures (base + offset) / PAGE == base / PAGE && (base + offset) % PAGE == offset && base + offset < SPACE
  {
  }

  lemma WithoutGrows(m: VMap, v: nat, n: nat)
    ensures Without(m, v, n) - {v + n} == Without(m, v, n + 1)
  {
  }

  function Without(m: VMap, v: nat, n: nat): VMap {
    map p | p in m && !(v <= p < v + n) :: m[p]
  }

  /** The length searched for and mapped by `map_range`: 32-bit arithmetic. */
  function SpanOf(phys: nat, len: nat): nat { (len + phys % PAGE) % SPACE }

  /** `map_range` for a given physical address, without MAP_OVERWRITE. */
  ghost function MapRangeResult(m: VMap, phys: nat, len: nat): (r: (MapResult, nat, VMap)) {
    var span := SpanOf(phys, len);
    var base := FindResult(m, span);
    if base == 0 then (NoVirtMem, 0, m)
    else if Fits(m, base / PAGE, span) then
      (MapSuccess, base + phys % PAGE, WithRange(m, base / PAGE, phys / PAGE, BytesToPages(span)))
    else (AlreadyMapped, base + phys % PAGE, m)
  }

  /** The physical address a byte of virtual memory translates to. */
  function Translate(m: VMap, a: nat): nat
    requires a / PAGE in m
  {
    m[a / PAGE] * PAGE + a % PAGE
  }

  /** Byte `i` from `virt` translates to byte `i` from `phys`. */
  ghost predicate ByteMaps(m: VMap, virt: nat, phys: nat, i: nat) {
    (virt + i) / PAGE in m && Translate(m, virt + i) == phys + i
  }

  ghost predicate Below(m: VMap) { forall p :: p in m ==> p < WINDOW }

  /** The same for all of the `len` bytes. */
  ghost predicate BytesMap(m: VMap, virt: nat, phys: nat, len: nat) {
    forall i :: 0 <= i < len ==> ByteMaps(m, virt, phys, i)
  }

  ghost predicate Extends(m: VMap, m': VMap) { forall p :: p in m ==> p in m' && m'[p] == m[p] }

  /** A successful mapping takes only unmapped pages, changes no page that was mapped, and makes byte
      `i` of the new range the byte `phys + i` for all of the `len` bytes exactly when the length and
      the offset into the page do not pass 4 GiB together. */
  lemma MapRangeTranslates(m: VMap, phys: nat, len: nat)
    requires Below(m) && MapRangeResult(m, phys, len).0.MapSuccess?
    requires 0 < len && phys + len <= SPACE
    ensures var (_, virt, m') := MapRangeResult(m, phys, len);
            && Extends(m, m') && NoneMapped(m, PageNo(virt), BytesToPages(SpanOf(phys, len)))
            && (BytesMap(m', virt, phys, len) <==> len + phys % PAGE < SPACE)
  {
    var (_, virt, m') := MapRangeResult(m, phys, len);
    MapSuccessIs(m, phys, len);
    hide *;
    var v, n := PageNo(virt), BytesToPages(SpanOf(phys, len));
    FitsFree(m, v, SpanOf(phys, len));
    RangeKeeps(m, v, PageNo(phys), n);
    AllBytesMap(m, v, virt, phys, len);
  }

  /** Without that overflow the pages mapped are exactly those that the bytes are on. */
  lemma MapRangePages(m: VMap, phys: nat, len: nat)
    requires Below(m) && MapRangeResult(m, phys, len).0.MapSuccess?
    requires 0 < len && phys + len <= SPACE && len + phys % PAGE < SPACE
    ensures var (_, virt, m') := MapRangeResult(m, phys, len);
            forall p :: p in m' && p !in m <==> virt / 4096 <= p <= (virt + len - 1) / 4096
  {
    var (_, virt, m') := MapRangeResult(m, phys, len);
    MapSuccessIs(m, phys, len);
    FitsFree(m, PageNo(virt), SpanOf(phys, len));
    LastPage(PageNo(virt), phys, len);
    hide MapRangeResult, BytesToPages, Fits, Below, SpanOf;
    assert forall p :: p in m ==> Mapped(m, p);
  }

  lemma LastPage(v: nat, phys: nat, len: nat)
    requires 0 < len && len + phys % PAGE < SPACE && v * PAGE + SpanOf(phys, len) < SPACE && v >= 1
    ensures var virt := v * PAGE + phys % PAGE;
            virt / 4096 == v && (virt + len - 1) / 4096 == v + BytesToPages(SpanOf(phys, len)) - 1
  {
    assert SpanOf(phys, len) == len + phys % PAGE;
  }

  lemma FitsFree(m: VMap, b: nat, len: nat)
    requires Fits(m, b, len)
    ensures NoneMapped(m, b, BytesToPages(len))
  {
    BytesToPagesBound(len);
  }

  lemma AllBytesMap(m: VMap, v: nat, virt: nat, phys: nat, len: nat)
    requires 1 <= v && 0 < len && phys + len <= SPACE && v * PAGE + SpanOf(phys, len) < SPACE
    requires virt == v * PAGE + phys % PAGE
    requires Below(WithRange(m, v, PageNo(phys), BytesToPages(SpanOf(phys, len))))
    ensures var m' := WithRange(m, v, PageNo(phys), BytesToPages(SpanOf(phys, len)));
            BytesMap(m', virt, phys, len) <==> len + phys % PAGE < SPACE
  {
    var m' := WithRange(m, v, PageNo(phys), BytesToPages(SpanOf(phys, len)));
    hide WithRange, BytesToPages, ByteMaps, Below;
    if len + phys % PAGE < SPACE {
      forall i | 0 <= i < len ensures ByteMaps(m', virt, phys, i) {
        RangeByte(m, v, phys, i, SpanOf(phys, len));
      }
    } else {
      LastByteUnmapped(m', v, phys, len);
    }
  }

  lemma LastByteUnmapped(m: VMap, v: nat, phys: nat, len: nat)
    requires Below(m) && 1 <= v && 0 < len && len + phys % PAGE >= SPACE
    ensures !ByteMaps(m, v * PAGE + phys % PAGE, phys, len - 1)
  {
    assert (v * PAGE + phys % PAGE + (len - 1)) / PAGE >= WINDOW;
  }

  lemma MapSuccessIs(m: VMap, phys: nat, len: nat)
    requires MapRangeResult(m, phys, len).0.MapSuccess?
    ensures var (_, virt, m') := MapRangeResult(m, phys, len);
            var v, span := PageNo(virt), SpanOf(phys, len);
            && 1 <= v && virt == v * PAGE + phys % PAGE && Fits(m, v, span) && v + Ceil(span) < WINDOW
            && v * PAGE + span < SPACE && m' == WithRange(m, v, PageNo(phys), BytesToPages(span))
            && (Below(m) ==> Below(m'))
  {
    hide *;
    var span := SpanOf(phys, len);
    var base := FindResult(m, span);
    MapSuccessBase(m, phys, len);
    FindResultIs(m, span);
    BasePage(base, phys);
    FitsEndsBelowWindow(m, PageNo(base), span);
    BytesToPagesBound(span);
    RangeBelow(m, PageNo(base), PageNo(phys), BytesToPages(span));
  }

  lemma MapSuccessBase(m: VMap, phys: nat, len: nat)
    requires MapRangeResult(m, phys, len).0.MapSuccess?
    ensures var (_, virt, m') := MapRangeResult(m, phys, len);
            var span := SpanOf(phys, len);
            var base := FindResult(m, span);
            && base != 0 && virt == base + phys % PAGE && Fits(m, PageNo(base), span) && span < SPACE
            && m' == WithRange(m, PageNo(base), PageNo(phys), BytesToPages(span))
  {
    hide FindResult, Fits, WithRange, BytesToPages;
  }

  lemma BasePage(base: nat, phys: nat)
    requires base % PAGE == 0 && 0 < base < SPACE
    ensures PageNo(base + phys % PAGE) == PageNo(base) >= 1 && base == PageNo(base) * PAGE
  {
    OffsetIn(base, phys % PAGE);
  }

  lemma RangeBelow(m: VMap, v: nat, f: nat, n: nat)
    requires v + n <= WINDOW
    ensures Below(m) ==> Below(WithRange(m, v, f, n))
  {
  }

  lemma RangeKeeps(m: VMap, v: nat, f: nat, n: nat)
    requires NoneMapped(m, v, n)
    ensures Extends(m, WithRange(m, v, f, n))
  {
    assert forall p :: p in m ==> Mapped(m, p);
  }

  lemma RangeByte(m: VMap, v: nat, phys: nat, i: nat, span: nat)
    requires i + phys % PAGE < span < SPACE && phys + i < SPACE && 1 <= v && v * PAGE + span < SPACE
    ensures ByteMaps(WithRange(m, v, PageNo(phys), BytesToPages(span)), v * PAGE + phys % PAGE, phys, i)
  {
    ByteInRange(v, phys, i, span);
    hide BytesToPages;
  }

  lemma FitsExcludes(m: VMap, b: nat, len: nat)
    requires Fits(m, b, len)
    ensures forall p :: b <= p < b + BytesToPages(len) ==> p !in m
  {
    forall p | b <= p < b + BytesToPages(len) ensures p !in m {
      assert !Mapped(m, p);
    }
  }

  lemma ByteInRange(b: nat, phys: nat, i: nat, span: nat)
    requires i + phys % PAGE < span < SPACE && phys + i < SPACE
    requires 1 <= b && b * PAGE + span < SPACE
    ensures var a := b * PAGE + phys % PAGE + i;
            && b <= a / PAGE < b + BytesToPages(span) <= b + Ceil(span)
            && FrameAt(b, phys / PAGE, a / PAGE) * PAGE + a % PAGE == phys + i
  {
  }

  /** A mapping of whole pages is undone by unmapping them. */
  lemma UnmapUndoesMap(m: VMap, phys: nat, len: nat)
    requires MapRangeResult(m, phys, len).0.MapSuccess? && phys % PAGE == 0 && len < SPACE
    ensures var (_, virt, m') := MapRangeResult(m, phys, len);
            Without(m', virt / PAGE, BytesToPages(len)) == m
  {
    hide FindResult, Fits;
    assert SpanOf(phys, len) == len;
    var virt := MapRangeResult(m, phys, len).1;
    FitsExcludes(m, virt / PAGE, len);
    RangeUndone(m, virt / PAGE, phys / PAGE, BytesToPages(len));
  }

  lemma RangeUndone(m: VMap, v: nat, f: nat, n: nat)
    requires forall p :: v <= p < v + n ==> p !in m
    ensures Without(WithRange(m, v, f, n), v, n) == m
  {
  }
}
