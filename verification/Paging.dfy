/** i386 paging: two-level tables edited through a recursive self-map, and the flat array that the
    search for free virtual memory looks at. */
module Paging {
  import opened Machine
  import opened PagingModel

  const PRESENT: bv12 := 0x1
  const WRITEABLE: bv12 := 0x2
  const USER: bv12 := 0x4
  const WRITE_THROUGH: bv12 := 0x8
  const CACHE_DISABLE: bv12 := 0x10
  const READ: bv12 := 0x20
  const WRITTEN: bv12 := 0x40
  const PAT: bv12 := 0x80
  const GLOBAL: bv12 := 0x100

  const VA_OFFSET: nat := 0xF000_0000
  const SELF_MAP: nat := 0xFFC0_0000

  /** A word of a page table or directory: 20 bits of frame number and 12 flag bits. */
  datatype Entry = Entry(frame: nat, flags: bv12) {
    predicate Present() { flags & PRESENT != 0 }

    /** Present, writeable, and none of the other flags that the processor knows. */
    predicate Kernel() { flags & 0x1FF == 0x3 }

    function SetAddr(address: nat): Entry { this.(frame := address / PAGE) }

    function SetBit(b: bv12): Entry { this.(flags := flags | b) }

    function UnsetBit(b: bv12): Entry { this.(flags := flags & !b) }

    /** The default configuration that `map_page` and `setup_paging` give an entry: writeable, for the
        kernel only, with write-back caching, neither read nor written yet; the three bits that the
        processor leaves to the kernel stay. */
    function Configure(): (e: Entry)
      ensures e.Present() && e.frame == frame && e.flags == (flags & 0xE00) | 0x3 && e.Kernel()
    {
      UnsetBit(GLOBAL).UnsetBit(PAT).UnsetBit(WRITTEN).UnsetBit(READ).UnsetBit(CACHE_DISABLE)
      .UnsetBit(WRITE_THROUGH).UnsetBit(USER).SetBit(WRITEABLE).SetBit(PRESENT)
    }
  }

  type Frames = map<nat, seq<Entry>>

  function PdeOffset(a: nat): nat { a / 0x40_0000 }

  function PteOffset(a: nat): nat { a / PAGE % 1024 }

  /** Where the processor finds the table entry of the page of `a`: a frame, and an index in it. */
  function EntryPlace(frames: Frames, directory: nat, a: nat): (nat, nat)
    requires a < SPACE && IsTable(frames, directory)
  {
    (frames[directory][PdeOffset(a)].frame, PteOffset(a))
  }

  predicate IsTable(frames: Frames, f: nat) { f in frames && |frames[f]| == 1024 }

  /** The frame of all_page_tables[d]. */
  function TableFrame(tables: nat, d: nat): nat { tables + d }

  ghost predicate HasTables(frames: Frames, tables: nat) {
    forall d :: 0 <= d < 1024 ==> IsTable(frames, TableFrame(tables, d))
  }

  /** The directory has an entry for each of the page tables in consecutive frames, except for the
      last, which points back to the directory. */
  ghost predicate Recursive(frames: Frames, directory: nat, tables: nat) {
    && IsTable(frames, directory) && HasTables(frames, tables)
    && !(tables <= directory < tables + 1024)
    && (forall d :: 0 <= d < 1023 ==> frames[directory][d].frame == TableFrame(tables, d))
    && frames[directory][1023].frame == directory
    && (forall d :: 0 <= d < 1024 ==> frames[directory][d].Present())
  }

  /** The word the processor reads or writes at a virtual address: walk the two levels. */
  function WordPlace(frames: Frames, directory: nat, a: nat): (nat, nat)
    requires a < SPACE && IsTable(frames, directory)
    requires IsTable(frames, EntryPlace(frames, directory, a).0)
  {
    var (f, i) := EntryPlace(frames, directory, a);
    (frames[f][i].frame, a % PAGE / 4)
  }

  function PteAddress(a: nat): nat { SELF_MAP + 1024 * 4 * PdeOffset(a) + 4 * PteOffset(a) }

  function PdeAddress(a: nat): nat { 0xFFFF_F000 + 4 * PdeOffset(a) }

  lemma SelfMapArithmetic(a: nat)
    requires a < SPACE
    ensures PdeOffset(a) < 1024
    ensures PteAddress(a) < SPACE && PdeOffset(PteAddress(a)) == 1023 && PteOffset(PteAddress(a)) == PdeOffset(a)
    ensures PteAddress(a) % PAGE / 4 == PteOffset(a)
    ensures PdeAddress(a) < SPACE && PdeOffset(PdeAddress(a)) == 1023 && PteOffset(PdeAddress(a)) == 1023
    ensures PdeAddress(a) % PAGE / 4 == PdeOffset(a)
  {
    WordInPage(PdeOffset(a), PteOffset(a));
    WordInPage(1023, PdeOffset(a));
  }

  /** The address of word `w` of page `p` of the window. */
  lemma WordInPage(p: nat, w: nat)
    requires p < 1024 && w < 1024
    ensures var a := SELF_MAP + 1024 * 4 * p + 4 * w;
            a < SPACE && PdeOffset(a) == 1023 && PteOffset(a) == p && a % PAGE / 4 == w
  {
    var a := SELF_MAP + 1024 * 4 * p + 4 * w;
    assert a == PAGE * (1023 * 1024 + p) + 4 * w;
    assert a / PAGE == 1023 * 1024 + p && a % PAGE == 4 * w;
  }

  /** The self-map: the word at PteAddress(a) is the table entry that translates `a`, and the word
      at PdeAddress(a) is the directory entry above it; and they are present, so reaching them
      does not fault. */
  lemma SelfMapReachesEntry(frames: Frames, directory: nat, tables: nat, a: nat)
    requires Recursive(frames, directory, tables) && a < SPACE
    ensures IsTable(frames, EntryPlace(frames, directory, PteAddress(a)).0)
    ensures IsTable(frames, EntryPlace(frames, directory, PdeAddress(a)).0)
    ensures WordPlace(frames, directory, PteAddress(a)) == EntryPlace(frames, directory, a)
    ensures WordPlace(frames, directory, PdeAddress(a)) == (directory, PdeOffset(a))
    ensures var (f, i) := EntryPlace(frames, directory, PteAddress(a)); frames[f][i].Present()
    ensures var (f, i) := EntryPlace(frames, directory, PdeAddress(a)); frames[f][i].Present()
  {
    SelfMapArithmetic(a);
  }

  function EntryOf(frames: Frames, tables: nat, p: nat): Entry
    requires HasTables(frames, tables) && p < PAGES
  {
    assert IsTable(frames, TableFrame(tables, p / 1024));
    frames[TableFrame(tables, p / 1024)][p % 1024]
  }

  /** What the tables say about the pages below the window. */
  ghost function MapOf(frames: Frames, tables: nat): VMap
    requires HasTables(frames, tables)
  {
    map p: nat | p < WINDOW && EntryOf(frames, tables, p).Present() :: EntryOf(frames, tables, p).frame
  }

  function StoreWord(frames: Frames, f: nat, i: nat, e: Entry): Frames
    requires IsTable(frames, f) && i < 1024
  {
    frames[f := frames[f][i := e]]
  }

  /** Writing the entry of page `p` changes the mapping of page `p` only. */
  lemma StoreChangesOnePage(frames: Frames, directory: nat, tables: nat, p: nat, e: Entry)
    requires Recursive(frames, directory, tables) && p < WINDOW
    ensures IsTable(frames, TableFrame(tables, p / 1024))
    ensures var frames' := StoreWord(frames, TableFrame(tables, p / 1024), p % 1024, e);
            && Recursive(frames', directory, tables)
            && MapOf(frames', tables)
               == if e.Present() then MapOf(frames, tables)[p := e.frame] else MapOf(frames, tables) - {p}
  {
    TableStore(frames, directory, tables, p, e);
  }

  function ZeroTable(f: nat): seq<Entry> { seq(1024, _ => Entry(0, 0)) }

  /** The frames at the start: all the tables, and the directory. */
  function ZeroFrames(directory: nat, tables: nat): Frames {
    (map f: nat | tables <= f < tables + 1024 :: ZeroTable(f))[directory := ZeroTable(directory)]
  }

  lemma ZeroFramesAre(directory: nat, tables: nat)
    requires !(tables <= directory < tables + 1024)
    ensures var frames := ZeroFrames(directory, tables);
            && IsTable(frames, directory) && HasTables(frames, tables)
            && MapOf(frames, tables) == map[] && KernelOnly(frames, tables)
  {
    var frames := ZeroFrames(directory, tables);
    assert HasTables(frames, tables);
    assert forall p: nat :: p < WINDOW ==> EntryOf(frames, tables, p) == Entry(0, 0);
  }

  /** The first `n` directory entries are present and point to the page tables. */
  ghost predicate PointsToTables(frames: Frames, directory: nat, tables: nat, n: nat)
    requires n <= 1024
  {
    && IsTable(frames, directory)
    && forall d :: 0 <= d < n ==>
         && frames[directory][d].frame == TableFrame(tables, d)
         && frames[directory][d].Present() && frames[directory][d].Kernel()
  }

  /** Every page that is mapped is for the kernel only. */
  ghost predicate KernelOnly(frames: Frames, tables: nat)
    requires HasTables(frames, tables)
  {
    forall p: nat :: p < WINDOW && EntryOf(frames, tables, p).Present() ==> EntryOf(frames, tables, p).Kernel()
  }

  lemma StoreKernelOnly(frames: Frames, directory: nat, tables: nat, p: nat, e: Entry)
    requires IsTable(frames, directory) && HasTables(frames, tables) && p < WINDOW
    requires !(tables <= directory < tables + 1024) && KernelOnly(frames, tables) && e.Kernel()
    ensures IsTable(frames, TableFrame(tables, p / 1024))
    ensures var frames' := StoreWord(frames, TableFrame(tables, p / 1024), p % 1024, e);
            HasTables(frames', tables) && KernelOnly(frames', tables)
  {
    TableStore(frames, directory, tables, p, e);
    var frames' := StoreWord(frames, TableFrame(tables, p / 1024), p % 1024, e);
    forall q: nat | q < WINDOW && q != p ensures EntryOf(frames', tables, q) == EntryOf(frames, tables, q) {
      assert q / 1024 != p / 1024 || q % 1024 != p % 1024;
    }
    assert EntryOf(frames', tables, p) == e;
  }

  /** The kernel image, `VA_OFFSET` below itself. */
  function KernelMap(kernelStart: nat, kernelEnd: nat): VMap
    requires VA_OFFSET <= kernelStart <= kernelEnd
  {
    Range(PageNo(kernelStart), PageNo(kernelStart) - VA_OFFSET / PAGE, PageNo(kernelEnd) - PageNo(kernelStart) + 1)
  }

  /** A kernel of two pages, at 1 MiB. */
  lemma KernelMapped()
    ensures KernelMap(0xF010_0000, 0xF010_1234) == map[0xF_0100 := 0x100, 0xF_0101 := 0x101]
  {
  }

  lemma KernelRange(kernelStart: nat, kernelEnd: nat, first: nat)
    requires VA_OFFSET <= kernelStart <= kernelEnd && first == kernelStart / PAGE
    ensures first == PageNo(kernelStart) <= PageNo(kernelEnd) && kernelStart / PAGE * PAGE == AddressOf(first)
    ensures Range(first, first - VA_OFFSET / PAGE, 0) == map[]
    ensures KernelMap(kernelStart, kernelEnd) == Range(first, first - VA_OFFSET / PAGE, PageNo(kernelEnd) - first + 1)
  {
  }

  lemma KernelRangeGrows(kernelEnd: nat, first: nat, n: nat, where: nat)
    requires VA_OFFSET / PAGE <= first && where == AddressOf(first + n) <= kernelEnd < SELF_MAP
    ensures var f := first - VA_OFFSET / PAGE;
            && VA_OFFSET <= where
            && Range(first, f, n)[PageNo(where) := PageNo(where - VA_OFFSET)] == Range(first, f, n + 1)
    ensures PageNo(where) < PAGES && first + n <= PageNo(kernelEnd) &&
        NextPage(where) == AddressOf(first + n + 1) > where
  {
  }

  /** The search array marks exactly the mapped pages. */
  ghost predicate Marks(s: seq<bool>, m: VMap) {
    |s| == PAGES && forall p: nat :: p < PAGES ==> s[p] == (p in m)
  }

  lemma MarksGrow(s: seq<bool>, m: VMap, p: nat, f: nat)
    requires Marks(s, m) && p < PAGES
    ensures |s| == PAGES && Marks(s[p := true], m[p := f])
  {
  }

  lemma KernelRangeEnds(kernelEnd: nat, first: nat, n: nat, where: nat)
    requires where == AddressOf(first + n) > kernelEnd && first + n <= PageNo(kernelEnd) + 1
    ensures first + n == PageNo(kernelEnd) + 1
  {
  }

  lemma TableIs(frames: Frames, tables: nat, a: nat)
    requires HasTables(frames, tables) && a < SPACE
    ensures PdeOffset(a) == a / PAGE / 1024 < 1024 && PteOffset(a) == a / PAGE % 1024
    ensures IsTable(frames, TableFrame(tables, PdeOffset(a)))
  {
    assert PdeOffset(a) == a / PAGE / 1024 < 1024;
  }

  /** Writing the entry of page `p`, before paging is enabled. */
  lemma TableStore(frames: Frames, directory: nat, tables: nat, p: nat, e: Entry)
    requires IsTable(frames, directory) && HasTables(frames, tables) && p < WINDOW
    requires !(tables <= directory < tables + 1024)
    ensures IsTable(frames, TableFrame(tables, p / 1024))
    ensures var frames' := StoreWord(frames, TableFrame(tables, p / 1024), p % 1024, e);
            && HasTables(frames', tables) && IsTable(frames', directory) && frames'[directory] == frames[directory]
            && MapOf(frames', tables)
               == if e.Present() then MapOf(frames, tables)[p := e.frame] else MapOf(frames, tables) - {p}
  {
    assert IsTable(frames, TableFrame(tables, p / 1024));
    var frames' := StoreWord(frames, TableFrame(tables, p / 1024), p % 1024, e);
    forall d | 0 <= d < 1024 ensures IsTable(frames', TableFrame(tables, d)) {
      assert IsTable(frames, TableFrame(tables, d));
    }
    forall q: nat | q < WINDOW && q != p ensures EntryOf(frames', tables, q) == EntryOf(frames, tables, q) {
      assert q / 1024 != p / 1024 || q % 1024 != p % 1024;
    }
  }

  /** Writing a directory entry changes no table. */
  lemma DirectoryStore(frames: Frames, directory: nat, tables: nat, d: nat, e: Entry)
    requires IsTable(frames, directory) && HasTables(frames, tables) && d < 1024
    requires !(tables <= directory < tables + 1024)
    ensures var frames' := StoreWord(frames, directory, d, e);
            && IsTable(frames', directory) && HasTables(frames', tables) &&
              MapOf(frames', tables) == MapOf(frames, tables)
            && forall p: nat :: p < PAGES ==> EntryOf(frames', tables, p) == EntryOf(frames, tables, p)
  {
    var frames' := StoreWord(frames, directory, d, e);
    forall i | 0 <= i < 1024 ensures IsTable(frames', TableFrame(tables, i)) {
      assert IsTable(frames, TableFrame(tables, i));
    }
  }

  class AddressSpace {
    const directory: nat             // frame of bootstrap_page_directory
    const tables: nat                // frame of all_page_tables[0]
    var frames: Frames               // the frames that hold them, as the processor sees them
    const searchable: array<bool>    // page_tables_searchable

    /** The tables are reachable through the self-map, and the search array agrees with them. */
    ghost predicate Valid()
      reads this`frames, searchable
    {
      && HasTables(frames, tables) && Recursive(frames, directory, tables)
      && searchable.Length == PAGES
      && (forall p: nat :: p < PAGES ==> searchable[p] == Mapped(MapOf(frames, tables), p))
    }

    ghost function Map(): VMap
      reads this`frames, searchable
      requires Valid()
    {
      MapOf(frames, tables)
    }

    /** `setup_paging`: the kernel from `kernelStart` to `kernelEnd` is mapped `VA_OFFSET` below
        itself, and the last directory entry points back to the directory. */
    constructor Setup(directory: nat, tables: nat, kernelStart: nat, kernelEnd: nat)
      requires !(tables <= directory < tables + 1024)
      requires VA_OFFSET <= kernelStart <= kernelEnd < SELF_MAP
      ensures Valid() && fresh(searchable) && this.directory == directory && this.tables == tables
      ensures Map() == KernelMap(kernelStart, kernelEnd) && KernelOnly(frames, tables)
      ensures forall d :: 0 <= d < 1024 ==> frames[directory][d].flags & 0x1FF == 0x3
    {
      this.directory, this.tables := directory, tables;
      frames := ZeroFrames(directory, tables);
      searchable := new bool[PAGES](_ => false);
      new;
      ZeroFramesAre(directory, tables);
      assert Marks(searchable[..], map[]);
      hide *;
      SetupDirectory();
      MapKernel(kernelStart, kernelEnd);
      SetupWindow();
    }

    method SetupDirectory()
      requires IsTable(frames, directory) && HasTables(frames, tables) && !(tables <= directory < tables + 1024)
      modifies this`frames
      ensures HasTables(frames, tables) && PointsToTables(frames, directory, tables, 1024)
      ensures MapOf(frames, tables) == old(MapOf(frames, tables))
      ensures old(KernelOnly(frames, tables)) ==> KernelOnly(frames, tables)
    {
      for d := 0 to 1024
        invariant HasTables(frames, tables) && PointsToTables(frames, directory, tables, d)
        invariant MapOf(frames, tables) == old(MapOf(frames, tables))
        invariant old(KernelOnly(frames, tables)) ==> KernelOnly(frames, tables)
      {
        var e := frames[directory][d].SetAddr(TableFrame(tables, d) * PAGE).Configure();
        DirectoryStore(frames, directory, tables, d, e);
        frames := StoreWord(frames, directory, d, e);
      }
    }

    method MapKernel(kernelStart: nat, kernelEnd: nat)
      requires HasTables(frames, tables) && PointsToTables(frames, directory, tables, 1024)
      requires !(tables <= directory < tables + 1024) && MapOf(frames, tables) == map[]
      requires KernelOnly(frames, tables)
      requires VA_OFFSET <= kernelStart <= kernelEnd < SELF_MAP
      requires Marks(searchable[..], MapOf(frames, tables))
      modifies this`frames, searchable
      ensures HasTables(frames, tables) && PointsToTables(frames, directory, tables, 1024)
      ensures MapOf(frames, tables) == KernelMap(kernelStart, kernelEnd) && KernelOnly(frames, tables)
      ensures Marks(searchable[..], MapOf(frames, tables))
    {
      var where, first := kernelStart / PAGE * PAGE, kernelStart / PAGE;
      ghost var n, f: nat := 0, first - VA_OFFSET / PAGE;
      KernelRange(kernelStart, kernelEnd, first);
      hide *;
      while where <= kernelEnd
        invariant HasTables(frames, tables) && PointsToTables(frames, directory, tables, 1024)
        invariant where == AddressOf(first + n) && first + n <= PageNo(kernelEnd) + 1
        invariant MapOf(frames, tables) == Range(first, f, n) && KernelOnly(frames, tables)
        invariant Marks(searchable[..], MapOf(frames, tables))
        decreases kernelEnd - where
      {
        KernelRangeGrows(kernelEnd, first, n, where);
        MarksGrow(searchable[..], MapOf(frames, tables), PageNo(where), PageNo(where - VA_OFFSET));
        MapKernelPage(where);
        where, n := NextPage(where), n + 1;
      }
      KernelRangeEnds(kernelEnd, first, n, where);
    }

    method MapKernelPage(where: nat)
      requires HasTables(frames, tables) && PointsToTables(frames, directory, tables, 1024)
      requires !(tables <= directory < tables + 1024) && VA_OFFSET <= where < SELF_MAP
      requires searchable.Length == PAGES && KernelOnly(frames, tables)
      modifies this`frames, searchable
      ensures HasTables(frames, tables) && PointsToTables(frames, directory, tables, 1024)
      ensures MapOf(frames, tables) == old(MapOf(frames, tables))[PageNo(where) := PageNo(where - VA_OFFSET)]
      ensures KernelOnly(frames, tables)
      ensures searchable[..] == old(searchable[..])[PageNo(where) := true]
    {
      var p := where / PAGE;
      TableIs(frames, tables, where);
      var e := frames[TableFrame(tables, PdeOffset(where))][PteOffset(where)].SetAddr(where - VA_OFFSET).Configure();
      TableStore(frames, directory, tables, p, e);
      StoreKernelOnly(frames, directory, tables, p, e);
      frames := StoreWord(frames, TableFrame(tables, PdeOffset(where)), PteOffset(where), e);
      searchable[p] := true;
    }

    method SetupWindow()
      requires HasTables(frames, tables) && PointsToTables(frames, directory, tables, 1024)
      requires !(tables <= directory < tables + 1024)
      requires Marks(searchable[..], MapOf(frames, tables)) && KernelOnly(frames, tables)
      modifies this`frames, searchable
      ensures Valid() && Map() == old(MapOf(frames, tables)) && KernelOnly(frames, tables)
      ensures forall d :: 0 <= d < 1024 ==> frames[directory][d].Kernel()
    {
      var e := frames[directory][1023].SetAddr(directory * PAGE).Configure();
      DirectoryStore(frames, directory, tables, 1023, e);
      frames := StoreWord(frames, directory, 1023, e);
      assert Recursive(frames, directory, tables);
      for p := WINDOW to PAGES
        modifies searchable
        invariant forall q: nat :: q < PAGES ==> searchable[q] == (q in MapOf(frames, tables) || WINDOW <= q < p)
      {
        searchable[p] := true;
      }
    }

    predicate IsMapped(a: nat)
      requires a < SPACE && searchable.Length == PAGES
      reads searchable
    {
      searchable[a / PAGE]
    }

    /** Read the word at a virtual address. */
    function Load(a: nat): Entry
      requires Recursive(frames, directory, tables) && a < SPACE
      requires IsTable(frames, EntryPlace(frames, directory, a).0)
      requires IsTable(frames, WordPlace(frames, directory, a).0)
      reads this`frames
    {
      frames[WordPlace(frames, directory, a).0][WordPlace(frames, directory, a).1]
    }

    /** Write the word at a virtual address. */
    method Store(a: nat, e: Entry)
      requires Recursive(frames, directory, tables) && a < SPACE
      requires IsTable(frames, EntryPlace(frames, directory, a).0)
      requires IsTable(frames, WordPlace(frames, directory, a).0)
      modifies this`frames
      ensures var (f, i) := old(WordPlace(frames, directory, a)); frames == StoreWord(old(frames), f, i, e)
    {
      var (f, i) := WordPlace(frames, directory, a);
      frames := StoreWord(frames, f, i, e);
    }

    method MapPage(phys: nat, virt: nat, overwrite: bool) returns (r: MapResult)
      requires Valid() && virt < SPACE && (overwrite ==> PageNo(virt) < WINDOW)
      modifies this`frames, searchable
      ensures Valid()
      ensures r == if overwrite || !Mapped(old(Map()), PageNo(virt)) then MapSuccess else AlreadyMapped
      ensures Map() == if r.MapSuccess? then old(Map())[PageNo(virt) := PageNo(phys)] else old(Map())
      ensures var (e, e') := (old(EntryOf(frames, tables, PageNo(virt))), EntryOf(frames, tables, PageNo(virt)));
              e' == if r.MapSuccess? then Entry(PageNo(phys), (e.flags & 0xE00) | 0x3) else e
    {
      if !overwrite && IsMapped(virt) {
        return AlreadyMapped;
      }
      SelfMapReachesEntry(frames, directory, tables, virt);
      SelfMapArithmetic(virt);
      if !Load(PdeAddress(virt)).Present() {
        assert false;  // every directory entry is present from setup_paging on
      }
      ghost var p := virt / PAGE;
      assert PdeOffset(virt) == p / 1024 && PteOffset(virt) == p % 1024 && p < WINDOW;
      assert IsTable(frames, TableFrame(tables, p / 1024));
      assert WordPlace(frames, directory, PteAddress(virt)) == (TableFrame(tables, p / 1024), p % 1024);
      var e := Load(PteAddress(virt)).SetAddr(phys).Configure();
      StoreChangesOnePage(frames, directory, tables, p, e);
      Store(PteAddress(virt), e);
      searchable[virt / PAGE] := true;
      r := MapSuccess;
    }

    method UnmapPage(virt: nat) returns (r: MapResult)
      requires Valid() && PageNo(virt) < WINDOW
      modifies this`frames, searchable
      ensures Valid()
      ensures r == if PageNo(virt) in old(Map()) then MapSuccess else NotMapped
      ensures Map() == old(Map()) - {PageNo(virt)}
      ensures var (e, e') := (old(EntryOf(frames, tables, PageNo(virt))), EntryOf(frames, tables, PageNo(virt)));
              e' == if r.MapSuccess? then Entry(e.frame, e.flags & 0xFFE) else e
    {
      if IsMapped(virt) {
        SelfMapReachesEntry(frames, directory, tables, virt);
        SelfMapArithmetic(virt);
        ghost var p := virt / PAGE;
        assert PdeOffset(virt) == p / 1024 && PteOffset(virt) == p % 1024;
        assert IsTable(frames, TableFrame(tables, p / 1024));
        assert WordPlace(frames, directory, PteAddress(virt)) == (TableFrame(tables, p / 1024), p % 1024);
        var e := Load(PteAddress(virt)).UnsetBit(PRESENT);
        StoreChangesOnePage(frames, directory, tables, p, e);
        Store(PteAddress(virt), e);
        searchable[virt / PAGE] := false;
        r := MapSuccess;
      } else {
        r := NotMapped;
      }
    }

    /** `virt_to_phys`: the frame in the entry of the page, present or not. */
    function VirtToPhys(virt: nat): (phys: nat)
      requires Valid() && virt < SPACE
      reads this`frames, searchable
      ensures virt / PAGE in Map() ==> phys == Translate(Map(), virt) - virt % PAGE
      ensures virt / PAGE < WINDOW ==> phys == EntryOf(frames, tables, virt / PAGE).frame * 4096
    {
      SelfMapReachesEntry(frames, directory, tables, virt);
      SelfMapArithmetic(virt);
      EntryPlaceIsTable(frames, directory, tables, virt);
      Load(PteAddress(virt)).frame * PAGE
    }

    /** `free_from_here`.  `blocked` is the first mapped page of the range, or 0 if the range would
        pass 4 GiB. */
    method FreeFromHere(base: nat, needed: nat) returns (free: bool, blocked: nat)
      requires Valid() && base % PAGE == 0 && base < SPACE && needed < SPACE
      ensures free <==> base + needed == SPACE || (base + needed < SPACE && Fits(Map(), base / PAGE, needed))
      ensures free ==> blocked == base
      ensures !free && base + needed > SPACE ==> blocked == 0
      ensures !free && base + needed <= SPACE ==>
                && blocked % PAGE == 0 && base <= blocked < SPACE
                && base / PAGE <= blocked / PAGE <= base / PAGE + Ceil(needed) && Mapped(Map(), blocked / PAGE)
                && forall p :: base / PAGE <= p < blocked / PAGE ==> !Mapped(Map(), p)
    {
      if base > SPACE - needed {
        return false, 0;
      }
      var last := LastNeeded(base, needed);
      LastNeededIs(base, needed);
      var b := base;
      while b <= last
        invariant b % PAGE == 0 && base <= b && (b == base || b / PAGE <= WINDOW)
        invariant b <= last ==> b / PAGE <= base / PAGE + Ceil(needed)
        invariant forall p :: base / PAGE <= p < b / PAGE ==> !Mapped(Map(), p)
        decreases SPACE - b
      {
        if IsMapped(b) {
          return false, b;
        }
        assert !Mapped(Map(), b / PAGE);
        NextPageIs(b);
        b := NextPage(b);
      }
      return true, base;
    }

    method FindFreeVirtMem(len: nat) returns (r: nat)
      requires Valid() && len < SPACE
      ensures r == FindResult(Map(), len)
    {
      hide FindResult, EndsUnchecked, Fits, Valid;
      var base := PAGE;
      ghost var m := Map();
      SearchStarts(m, len);
      while base < SPACE - PAGE && base != 0
        invariant base % PAGE == 0 && PAGE <= base < SPACE
        invariant SearchedTo(m, base / PAGE, len)
        decreases SPACE - base
      {
        var free, blocked := FreeFromHere(base, len);
        if free {
          FoundResult(m, base / PAGE, len);
          return base;
        }
        if blocked == 0 {
          NotFoundResult(m, base / PAGE, len);
          return 0;
        }
        SearchMovesOn(m, base / PAGE, blocked / PAGE, len);
        NextPageIs(blocked);
        base := NextPage(blocked);
      }
      NotFoundResult(m, base / PAGE, len);
      return 0;
    }

    /** `internal_map_range`: all the pages are mapped, or none. */
    method InternalMapRange(phys: nat, len: nat, virt: nat, overwrite: bool) returns (r: MapResult)
      requires Valid() && phys < SPACE && len < SPACE && virt < SPACE
      requires overwrite ==> virt / PAGE + BytesToPages(len) <= WINDOW
      modifies this`frames, searchable
      ensures Valid()
      ensures r == if phys % PAGE != virt % PAGE then InvalidAlign
                   else if overwrite || Fits(old(Map()), virt / PAGE, len) then MapSuccess else AlreadyMapped
      ensures Map() ==
              if r.MapSuccess? then WithRange(old(Map()), virt / PAGE, phys / PAGE, BytesToPages(len)) else old(Map())
    {
      if phys % PAGE != virt % PAGE {
        return InvalidAlign;
      }
      ghost var m := Map();
      if !overwrite {
        var free, blocked := FreeFromHere(virt / PAGE * PAGE, len);
        if !free {
          if Fits(m, virt / PAGE, len) {
            FitsEndsBelowWindow(m, virt / PAGE, len);
          }
          return AlreadyMapped;
        }
      }
      r := MapPages(phys, len, virt, overwrite);
    }

    /** The loop of `internal_map_range`. */
    method MapPages(phys: nat, len: nat, virt: nat, overwrite: bool) returns (r: MapResult)
      requires Valid() && phys < SPACE && len < SPACE && virt < SPACE
      requires overwrite ==> PageNo(virt) + BytesToPages(len) <= WINDOW
      requires overwrite || AddressOf(PageNo(virt)) + len == SPACE || Fits(Map(), PageNo(virt), len)
      modifies this`frames, searchable
      ensures Valid()
      ensures r == if overwrite || Fits(old(Map()), PageNo(virt), len) then MapSuccess else AlreadyMapped
      ensures Map() ==
              if r.MapSuccess? then WithRange(old(Map()), PageNo(virt), PageNo(phys), BytesToPages(len)) else old(Map())
    {
      hide *;
      ghost var m := Map();
      var v, f, n := PageNo(virt), PageNo(phys), BytesToPages(len);
      var toMap: nat, frame: nat, count: nat := AddressOf(v), AddressOf(f), 0;
      RangeEmpty(m, v, f);
      PageOfAddress(virt);
      PageOfAddress(phys);
      FrameStart(f);
      while count < n
        invariant count <= n && Valid()
        invariant toMap == AddressOf(v + count) && toMap < SPACE
        invariant FrameIs(frame, f, count)
        invariant overwrite || NoneMapped(m, v, count)
        invariant Map() == WithRange(m, v, f, count)
      {
        PageStep(v + count);
        FrameNext(frame, v, f, count);
        var attempt := MapPage(frame, toMap, overwrite);
        NotInRange(m, v, f, count);
        if attempt != MapSuccess {
          NotFree(m, v, count, len);
          Rollback(toMap, virt, m, f, count);
          return attempt;
        }
        RangeGrows(m, v, f, count);
        NoneMappedGrows(m, v, count);
        count, toMap, frame := count + 1, NextPage(toMap), NextPage(frame);
      }
      if !overwrite {
        AllFree(m, v, n, len);
      }
      r := MapSuccess;
    }

    /** Unmap the pages that were mapped before one of them failed. */
    method Rollback(failed: nat, virt: nat, ghost m: VMap, ghost f: nat, ghost count: nat)
      requires Valid() && failed == AddressOf(PageNo(virt) + count)
      requires Map() == WithRange(m, PageNo(virt), f, count)
      requires NoneMapped(m, PageNo(virt), count)
      modifies this`frames, searchable
      ensures Valid() && Map() == m
    {
      hide *;
      var toMap := failed;
      ghost var v, k: nat := PageNo(virt), count;
      PageAbove(virt, k);
      while toMap > virt
        invariant k <= count && toMap == AddressOf(v + k) && Valid()
        invariant toMap > virt <==> k > 0
        invariant Map() == WithRange(m, v, f, k)
        decreases k
      {
        PageStep(v + k - 1);
        toMap, k := toMap - PAGE, k - 1;
        PageAbove(virt, k);
        RangeShrinks(m, v, f, k, count);
        var undone := UnmapPage(toMap);
        assert undone == MapSuccess;  // otherwise the kernel aborts
      }
      RangeEmpty(m, v, f);
    }

    method MapRange(phys: nat, len: nat) returns (r: MapResult, virt: nat)
      requires Valid() && phys < SPACE && len < SPACE
      modifies this`frames, searchable
      ensures Valid()
      ensures (r, virt, Map()) == MapRangeResult(old(Map()), phys, len)
    {
      hide FindResult, Fits, Valid, EndsUnchecked, MapRangeResult, WithRange, BytesToPages, Map, SpanOf;
      MapRangeIs(Map(), phys, len);
      var span := (len + phys % PAGE) % SPACE;
      var base := FindFreeVirtMem(span);
      if base == 0 {
        return NoVirtMem, 0;
      }
      virt := base + phys % PAGE;
      r := InternalMapRange(phys, span, virt, false);
    }

    /** The first loop of `unmap_range`. */
    method AllMapped(virt: nat, len: nat) returns (all: bool)
      requires Valid() && virt / PAGE + BytesToPages(len) <= WINDOW
      ensures all <==> forall p :: virt / PAGE <= p < virt / PAGE + BytesToPages(len) ==> p in Map()
    {
      var toUnmap, v, n := virt / PAGE * PAGE, virt / PAGE, BytesToPages(len);
      for count := 0 to n
        invariant toUnmap == (v + count) * PAGE
        invariant forall p :: v <= p < v + count ==> p in Map()
      {
        if !IsMapped(toUnmap) {
          assert !Mapped(Map(), v + count);
          return false;
        }
        assert Mapped(Map(), v + count);
        toUnmap := NextPage(toUnmap);
      }
      return true;
    }

    /** The last loop of `unmap_range`. */
    method UnmapPages(virt: nat, len: nat)
      requires Valid() && virt / PAGE + BytesToPages(len) <= WINDOW
      modifies this`frames, searchable
      ensures Valid() && Map() == Without(old(Map()), virt / PAGE, BytesToPages(len))
    {
      PageStart(virt);
      hide *;
      ghost var m := Map();
      var v, n := PageNo(virt), BytesToPages(len);
      var toUnmap := AddressOf(v);
      WithoutNone(m, v);
      for count := 0 to n
        invariant toUnmap == AddressOf(v + count)
        invariant Valid() && Map() == Without(m, v, count)
      {
        PageStep(v + count);
        var r := UnmapPage(toUnmap);
        ClearMark(v + count);
        WithoutGrows(m, v, count);
        toUnmap := NextPage(toUnmap);
      }
    }

    method ClearMark(p: nat)
      requires Valid() && p < WINDOW && p !in Map()
      modifies searchable
      ensures Valid() && Map() == old(Map())
    {
      searchable[p] := false;
    }
  }

  lemma EntryPlaceIsTable(frames: Frames, directory: nat, tables: nat, a: nat)
    requires Recursive(frames, directory, tables) && a < SPACE
    ensures IsTable(frames, EntryPlace(frames, directory, a).0)
    ensures a / PAGE < WINDOW ==>
        EntryPlace(frames, directory, a) == (TableFrame(tables, a / PAGE / 1024), a / PAGE % 1024)
  {
    SelfMapArithmetic(a);
    assert IsTable(frames, TableFrame(tables, PdeOffset(a)));
    assert PdeOffset(a) == a / PAGE / 1024;
  }
}
