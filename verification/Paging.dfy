/**
  Physical frames (kernel/src/physmem.c), the two-level page map (kernel/src/paging.c, the 32-bit
  scheme of section 4.3 of the Intel SDM, volume 3A) and the regions of a process
  (kernel/src/ualloc.c). Addresses are page numbers.
 */
module Paging {
  import opened Bits
  import opened Seqs
  import opened FrameSearch

  const TABLE: nat := 1024             // entries of a page table
  const SPAN_LIMIT: nat := 16 * TABLE  // pages between the ceiling and the kernel's own 4 MB entries

  predicate InRun(f: int, start: int, pages: int) { start <= f < start + pages }

  // ---------- Physical frames ----------

  /** The bitmap; the first megabyte is taken at start-up (physmem.c:272), so NULL is never a frame. */
  class PhysMem {
    var used: seq<bool>
    var freePages: int
    var lastPage: nat

    ghost predicate Valid()
      reads this
    {
      |used| == TOTAL_PAGES && lastPage <= MAXMAP && forall f :: 0 <= f < RESERVED ==> used[f]
    }

    constructor (used: seq<bool>, freePages: int)
      requires |used| == TOTAL_PAGES && forall f :: 0 <= f < RESERVED ==> used[f]
      ensures Valid() && this.used == used && this.freePages == freePages && lastPage == 0
    {
      this.used, this.freePages, lastPage := used, freePages, 0;
    }

    /** memory_alloc finds a run: more than `pages` frames are free and the search reaches a free run of that length. */
    ghost predicate Grants(pages: nat)
      reads this
      requires Valid() && pages > 0
    {
      freePages > pages && CanGrant(used, lastPage, pages)
    }

    /** A page table cannot be had: at most one frame is free by the count, or none in the map. */
    ghost predicate Exhausted()
      reads this
      requires Valid()
    {
      freePages <= 1 || forall f :: 0 <= f < MAXMAP ==> used[f]
    }

    /** The inner loop of the search: the first taken frame of the run. */
    method Scan(pos: nat, pages: nat) returns (j: nat)
      requires Valid() && pos + pages <= MAXMAP
      ensures j <= pages && (j < pages ==> used[pos + j]) && forall f :: pos <= f < pos + j ==> !used[f]
    {
      j := 0;
      while j < pages && !used[pos + j]
        invariant j <= pages && forall f :: pos <= f < pos + j ==> !used[f]
      {
        j := j + 1;
      }
    }

    /** The search of memory_multiple_alloc; it terminates despite its jumps. */
    method Search(pages: nat) returns (block: int)
      requires Valid() && pages > 0
      ensures block == -1 <==> !CanGrant(used, lastPage, pages)
      ensures block != -1 ==> FirstRun(used, lastPage, pages, block)
    {
      hide Searched, CanGrant, FirstRun;
      SearchStarts(used, lastPage, pages);
      var i: nat := 0;
      while i < MAXMAP
        invariant Searched(used, lastPage, pages, i + lastPage)
      {
        var pos := (i + lastPage) % MAXMAP;
        if pos + pages > MAXMAP {
          JumpStep(used, lastPage, pages, i + lastPage, pos);
          i := i + (pages - 2) + 1;
        } else {
          var j := Scan(pos, pages);
          if j == pages {
            SearchFinds(used, lastPage, pages, i + lastPage, pos);
            return pos;
          }
          BlockedStep(used, lastPage, pages, i + lastPage, pos, j);
          i := i + j + 1;
        }
      }
      SearchFails(used, lastPage, pages, i + lastPage);
      return -1;
    }

    /** memory_alloc: the first free run in the order of the search, whose frames are now taken. */
    method Alloc(pages: nat) returns (r: Option<nat>)
      requires Valid() && pages > 0
      modifies this
      ensures Valid()
      ensures r.Some? <==> old(Grants(pages))
      ensures pages <= RESERVED + 2 ==> (r.Some? <==> old(freePages) > pages && exists q :: FreeRun(old(used), q, pages))
      ensures r.None? ==> used == old(used) && freePages == old(freePages) && lastPage == old(lastPage)
      ensures r.Some? ==> FirstRun(old(used), old(lastPage), pages, r.value)
      ensures r.Some? ==>
        && RESERVED <= r.value && r.value + pages <= MAXMAP
        && freePages == old(freePages) - pages && lastPage == r.value + pages
      ensures r.Some? ==> forall f :: 0 <= f < TOTAL_PAGES ==>
        used[f] == (old(used)[f] || InRun(f, r.value, pages)) && (InRun(f, r.value, pages) ==> !old(used)[f])
    {
      if pages <= RESERVED + 2 {
        NothingMissed(used, lastPage, pages);
      }
      hide CanGrant, Reached;
      if freePages <= pages {
        return None;
      }
      var block := Search(pages);
      if block == -1 {
        return None;
      }
      assert !used[block];
      var i := 0;
      while i < pages
        invariant 0 <= i <= pages && |used| == TOTAL_PAGES && freePages == old(freePages) - i && lastPage == old(lastPage)
        invariant forall f :: 0 <= f < TOTAL_PAGES ==> used[f] == (old(used)[f] || InRun(f, block, i))
      {
        used := used[block + i := true];
        freePages := freePages - 1;
        i := i + 1;
      }
      lastPage := block + pages;
      return Some(block);
    }

    /** memory_free of a run of frames that are all taken, as its assertion demands. */
    method Free(pages: nat, start: nat)
      requires Valid() && RESERVED <= start && start + pages <= MAXMAP && forall f :: start <= f < start + pages ==> used[f]
      modifies this`used, this`freePages
      ensures Valid() && freePages == old(freePages) + pages
      ensures forall f :: 0 <= f < TOTAL_PAGES ==> used[f] == (old(used)[f] && !InRun(f, start, pages))
    {
      var index := 0;
      while index < pages
        invariant index <= pages && |used| == TOTAL_PAGES && freePages == old(freePages) + index
        invariant forall f :: 0 <= f < TOTAL_PAGES ==> used[f] == (old(used)[f] && !InRun(f, start, index))
      {
        var block := (start + index) % MAXMAP;
        assert block == start + index;
        assert used[block];
        used := used[block := false];
        freePages := freePages + 1;
        index := index + 1;
      }
    }
  }

  // ---------- The page map ----------

  /** A page table: the frame it occupies and its present entries. */
  datatype Table = Table(frame: nat, entries: map<nat, nat>)

  type PageMap = map<nat, Table>

  /** page_entry_present and page_entry: the frame mapped at a page, if present. */
  function Lookup(m: PageMap, page: nat): Option<nat> {
    if page / TABLE in m && page % TABLE in m[page / TABLE].entries then Some(m[page / TABLE].entries[page % TABLE]) else None
  }

  function SetEntry(m: PageMap, page: nat, frame: nat): PageMap
    requires page / TABLE in m
  {
    var t := m[page / TABLE];
    m[page / TABLE := t.(entries := t.entries[page % TABLE := frame])]
  }

  lemma SetEntryLookup(m: PageMap, page: nat, frame: nat, q: nat)
    requires page / TABLE in m
    ensures Lookup(SetEntry(m, page, frame), q) == if q == page then Some(frame) else Lookup(m, q)
  {
  }

  function ClearEntry(m: PageMap, page: nat): PageMap
    requires page / TABLE in m
  {
    var t := m[page / TABLE];
    m[page / TABLE := t.(entries := t.entries - {page % TABLE})]
  }

  lemma ClearEntryLookup(m: PageMap, page: nat, q: nat)
    requires page / TABLE in m
    ensures Lookup(ClearEntry(m, page), q) == if q == page then None else Lookup(m, q)
  {
  }

  lemma NewTableLookup(m: PageMap, t: nat, frame: nat, q: nat)
    requires t !in m
    ensures Lookup(m[t := Table(frame, map[])], q) == Lookup(m, q)
  {
  }

  /** No page of the run is present. */
  ghost predicate RunFree(m: PageMap, start: nat, pages: nat) {
    forall p: nat :: start <= p < start + pages ==> Lookup(m, p).None?
  }

  /** The lowest page of a range at which a run is free. */
  ghost predicate LowestFree(m: PageMap, start: nat, finish: nat, pages: nat, page: nat) {
    start <= page < finish && RunFree(m, page, pages) && forall q: nat :: start <= q < page ==> !RunFree(m, q, pages)
  }

  function TableOf(page: nat): nat { page / TABLE }

  /** Some page of the run has no page table. */
  ghost predicate TableMissing(m: PageMap, start: nat, pages: nat) {
    exists p: nat :: start <= p < start + pages && TableOf(p) !in m
  }

  /** The lowest free run of the range has a page without a page table. */
  ghost predicate LacksTable(m: PageMap, start: nat, finish: nat, pages: nat) {
    exists q: nat :: LowestFree(m, start, finish, pages, q) && TableMissing(m, q, pages)
  }

  /** page_find_free: its skipping search finds what the naive first-fit search finds. */
  method FindFree(m: PageMap, start: nat, finish: nat, pages: nat) returns (r: Option<nat>)
    ensures r.Some? ==> start <= r.value < finish && RunFree(m, r.value, pages)
    ensures r.Some? ==> forall q :: start <= q < r.value ==> !RunFree(m, q, pages)
    ensures r.None? ==> forall q :: start <= q < finish ==> !RunFree(m, q, pages)
  {
    hide Lookup;
    var current := start;
    while current < finish
      invariant start <= current
      invariant forall q :: start <= q < current && q < finish ==> !RunFree(m, q, pages)
    {
      var count := 0;
      while count < pages && Lookup(m, current + count).None?
        invariant count <= pages
        invariant forall p :: current <= p < current + count ==> Lookup(m, p).None?
      {
        count := count + 1;
      }
      if count == pages {
        return Some(current);
      }
      forall q | current <= q <= current + count ensures !RunFree(m, q, pages) {
        assert Lookup(m, current + count).Some?;
      }
      current := current + count + 1;
    }
    return None;
  }

  // ---------- The regions of a process ----------

  /** struct allocated_memory: `release` is false for the regions of user_map. */
  datatype Region = Region(virt: nat, phys: nat, pages: nat, release: bool)

  predicate VirtApart(a: Region, b: Region) { a.virt + a.pages <= b.virt || b.virt + b.pages <= a.virt }

  predicate PhysApart(a: Region, b: Region) { a.phys + a.pages <= b.phys || b.phys + b.pages <= a.phys }

  /** Every page of the region is mapped to its frame. */
  ghost predicate MappedTo(m: PageMap, r: Region) {
    forall p: nat :: r.virt <= p < r.virt + r.pages ==> Lookup(m, p) == Some(r.phys + (p - r.virt))
  }

  /** Regions are mapped page by page and disjoint in virtual pages. */
  ghost predicate VirtualOk(m: PageMap, regions: seq<Region>) {
    && (forall i :: 0 <= i < |regions| ==> regions[i].pages > 0 && MappedTo(m, regions[i]))
    && (forall i, j :: 0 <= i < j < |regions| ==> VirtApart(regions[i], regions[j]))
  }

  /** The frames of the allocated regions and of the page tables are taken, and no two of them share a frame. */
  ghost predicate FramesOk(m: PageMap, regions: seq<Region>, used: seq<bool>) {
    && |used| == TOTAL_PAGES
    && (forall i :: 0 <= i < |regions| && regions[i].release ==> Owned(regions[i], used))
    && (forall i, j :: 0 <= i < j < |regions| && regions[i].release && regions[j].release ==> PhysApart(regions[i], regions[j]))
    && (forall t :: t in m ==> m[t].frame < MAXMAP && used[m[t].frame])
    && (forall t, i :: t in m && 0 <= i < |regions| && regions[i].release ==>
          !InRun(m[t].frame, regions[i].phys, regions[i].pages))
  }

  ghost predicate Owned(r: Region, used: seq<bool>)
    requires |used| == TOTAL_PAGES
  {
    RESERVED <= r.phys && r.phys + r.pages <= MAXMAP && forall f :: r.phys <= f < r.phys + r.pages ==> used[f]
  }

  /** The outcome of an allocation; `NullTable` is the unchecked failure to allocate a page table. */
  datatype Outcome = Mapped(page: nat) | NoMemory | NullTable

  // ---------- What each step does to the regions ----------

  /** A frame just taken from the free ones becomes a page table. */
  lemma TableStep(m: PageMap, regions: seq<Region>, used: seq<bool>, used': seq<bool>, t: nat, f: nat)
    requires VirtualOk(m, regions) && FramesOk(m, regions, used) && t !in m
    requires |used'| == TOTAL_PAGES && f < MAXMAP && !used[f]
    requires forall g :: 0 <= g < TOTAL_PAGES ==> used'[g] == (used[g] || g == f)
    ensures VirtualOk(m[t := Table(f, map[])], regions) && FramesOk(m[t := Table(f, map[])], regions, used')
  {
    hide Lookup;
    var m' := m[t := Table(f, map[])];
    forall q: nat ensures Lookup(m', q) == Lookup(m, q) {
      NewTableLookup(m, t, f, q);
    }
    forall i | 0 <= i < |regions| ensures MappedTo(m', regions[i]) {
      assert MappedTo(m, regions[i]);
    }
  }

  /** Writing the entry of a page outside every region. */
  lemma EntryStep(m: PageMap, m': PageMap, regions: seq<Region>, used: seq<bool>, page: nat)
    requires VirtualOk(m, regions) && FramesOk(m, regions, used)
    requires forall i :: 0 <= i < |regions| ==> !InRun(page, regions[i].virt, regions[i].pages)
    requires forall q: nat :: q != page ==> Lookup(m', q) == Lookup(m, q)
    requires m'.Keys == m.Keys && forall t :: t in m ==> m'[t].frame == m[t].frame
    ensures VirtualOk(m', regions) && FramesOk(m', regions, used)
  {
    hide Lookup;
    forall i | 0 <= i < |regions| ensures MappedTo(m', regions[i]) {
      assert MappedTo(m, regions[i]);
    }
  }

  /** A page that is not present lies in no region. */
  lemma AbsentOutside(m: PageMap, regions: seq<Region>, page: nat)
    requires VirtualOk(m, regions) && Lookup(m, page).None?
    ensures forall i :: 0 <= i < |regions| ==> !InRun(page, regions[i].virt, regions[i].pages)
  {
    hide Lookup;
    forall i | 0 <= i < |regions| ensures !InRun(page, regions[i].virt, regions[i].pages) {
      assert MappedTo(m, regions[i]);
    }
  }

  /** A newly mapped region joins the list. */
  lemma RegionStep(m0: PageMap, m: PageMap, regions: seq<Region>, used: seq<bool>, r: Region)
    requires VirtualOk(m0, regions) && VirtualOk(m, regions) && FramesOk(m, regions, used) && r.pages > 0
    requires RunFree(m0, r.virt, r.pages) && MappedTo(m, r)
    requires r.release ==> Owned(r, used)
    requires r.release ==> forall i :: 0 <= i < |regions| && regions[i].release ==> PhysApart(regions[i], r)
    requires r.release ==> forall t :: t in m ==> !InRun(m[t].frame, r.phys, r.pages)
    ensures VirtualOk(m, [r] + regions) && FramesOk(m, [r] + regions, used)
  {
    hide Lookup;
    var all := [r] + regions;
    forall j | 0 <= j < |regions| ensures VirtApart(r, regions[j]) {
      NewRegionApart(m0, regions[j], r);
    }
  }

  lemma NewRegionApart(m: PageMap, old_: Region, r: Region)
    requires MappedTo(m, old_) && RunFree(m, r.virt, r.pages) && r.pages > 0 && old_.pages > 0
    ensures VirtApart(r, old_)
  {
    hide Lookup;
    var p := if r.virt >= old_.virt then r.virt else old_.virt;
    assert Lookup(m, p).Some? || Lookup(m, p).None?;
  }

  lemma RemoveRegion(m: PageMap, regions: seq<Region>, used: seq<bool>, k: nat)
    requires VirtualOk(m, regions) && FramesOk(m, regions, used) && k < |regions|
    ensures VirtualOk(m, RemoveAt(regions, k)) && FramesOk(m, RemoveAt(regions, k), used)
    ensures forall i :: 0 <= i < |regions| - 1 ==> VirtApart(RemoveAt(regions, k)[i], regions[k])
    ensures regions[k].release ==>
      forall i :: 0 <= i < |regions| - 1 && RemoveAt(regions, k)[i].release ==> PhysApart(RemoveAt(regions, k)[i], regions[k])
  {
    hide Lookup, MappedTo, Owned;
    var rest := RemoveAt(regions, k);
    forall i | 0 <= i < |rest|
      ensures VirtApart(rest[i], regions[k])
      ensures (rest[i].release && regions[k].release ==> PhysApart(rest[i], regions[k]))
    {
      assert rest[i] == regions[if i < k then i else i + 1];
    }
  }

  /** Giving back the frames of a region that has left the list. */
  lemma GiveBack(m: PageMap, regions: seq<Region>, used: seq<bool>, used': seq<bool>, r: Region)
    requires VirtualOk(m, regions) && FramesOk(m, regions, used) && |used'| == TOTAL_PAGES
    requires forall i :: 0 <= i < |regions| && regions[i].release ==> PhysApart(regions[i], r)
    requires forall t :: t in m ==> !InRun(m[t].frame, r.phys, r.pages)
    requires forall f :: 0 <= f < TOTAL_PAGES ==> used'[f] == (used[f] && !InRun(f, r.phys, r.pages))
    ensures FramesOk(m, regions, used')
  {
    hide Lookup;
  }

  /** Frames taken from the free ones belong to no region and to no page table. */
  lemma FreshRun(m: PageMap, regions: seq<Region>, used: seq<bool>, used': seq<bool>, r: Region)
    requires FramesOk(m, regions, used) && |used'| == TOTAL_PAGES && r.phys + r.pages <= MAXMAP && r.pages > 0
    requires forall i :: 0 <= i < |regions| ==> regions[i].pages > 0
    requires forall f :: 0 <= f < TOTAL_PAGES ==>
      used'[f] == (used[f] || InRun(f, r.phys, r.pages)) && (InRun(f, r.phys, r.pages) ==> !used[f])
    ensures FramesOk(m, regions, used')
    ensures forall i :: 0 <= i < |regions| && regions[i].release ==> PhysApart(regions[i], r)
    ensures forall t :: t in m ==> !InRun(m[t].frame, r.phys, r.pages)
  {
    forall i | 0 <= i < |regions| && regions[i].release ensures PhysApart(regions[i], r) {
      assert Owned(regions[i], used);
      var f := if r.phys >= regions[i].phys then r.phys else regions[i].phys;
      assert used[f] || !used[f];
    }
  }

  lemma TableFrames(m: PageMap, regions: seq<Region>, used: seq<bool>)
    requires FramesOk(m, regions, used)
    ensures forall t :: t in m ==> m[t].frame < TOTAL_PAGES
  {
  }

  lemma PagesPositive(m: PageMap, regions: seq<Region>)
    requires VirtualOk(m, regions)
    ensures forall i :: 0 <= i < |regions| ==> regions[i].pages > 0
  {
  }

  lemma PresentTable(m: PageMap, page: nat)
    requires Lookup(m, page).Some?
    ensures page / TABLE in m
  {
  }

  /** Regions start at different pages, so the address given to user_free names one of them. */
  lemma OnlyRegionAt(m: PageMap, regions: seq<Region>, k: nat)
    requires VirtualOk(m, regions) && k < |regions|
    ensures forall i :: 0 <= i < |regions| && regions[i].virt == regions[k].virt ==> i == k
  {
    hide Lookup, MappedTo;
    forall i | 0 <= i < |regions| && i != k ensures regions[i].virt != regions[k].virt {
      assert VirtApart(regions[if i < k then i else k], regions[if i < k then k else i]);
    }
  }

  lemma RegionFrames(m: PageMap, regions: seq<Region>, used: seq<bool>, k: nat)
    requires FramesOk(m, regions, used) && k < |regions|
    ensures regions[k].release ==>
      Owned(regions[k], used) && forall t :: t in m ==> !InRun(m[t].frame, regions[k].phys, regions[k].pages)
  {
    hide Lookup;
  }

  /** What user_free of region `k` does to the page map, the list and the bitmap. */
  ghost predicate Freed(m: PageMap, regions: seq<Region>, used: seq<bool>, k: nat, m': PageMap, regions': seq<Region>,
                        used': seq<bool>)
    requires k < |regions| && |used| == TOTAL_PAGES && |used'| == TOTAL_PAGES
  {
    var r := regions[k];
    && regions' == RemoveAt(regions, k)
    && SameTables(m, m')
    && (forall q: nat :: Lookup(m', q) == if InRun(q, r.virt, r.pages) then None else Lookup(m, q))
    && (forall f :: 0 <= f < TOTAL_PAGES ==> used'[f] == (used[f] && !(r.release && InRun(f, r.phys, r.pages))))
  }

  lemma FreedIsFrugal(m: PageMap, regions: seq<Region>, used: seq<bool>, k: nat, m': PageMap, regions': seq<Region>,
                      used': seq<bool>)
    requires k < |regions| && |used| == |used'| == TOTAL_PAGES && Freed(m, regions, used, k, m', regions', used')
    ensures Frugal(m, regions, used, m', regions', used')
  {
    hide Frugal, Lookup;
    forall i | 0 <= i < |regions'| ensures regions'[i] in regions {
      assert regions'[i] == regions[if i < k then i else i + 1];
    }
    forall f | 0 <= f < TOTAL_PAGES && used[f] && !used'[f] ensures FrameHeld(regions, f) {
      assert regions[k].release && InRun(f, regions[k].phys, regions[k].pages);
    }
    GivingIsFrugal(m, regions, used, m', regions', used');
  }

  /** The page lies in one of the regions. */
  ghost predicate Covered(regions: seq<Region>, page: nat) {
    exists i :: 0 <= i < |regions| && InRun(page, regions[i].virt, regions[i].pages)
  }

  /** The frame belongs to one of the regions that give their frames back. */
  ghost predicate FrameHeld(regions: seq<Region>, f: int) {
    exists i :: 0 <= i < |regions| && regions[i].release && InRun(f, regions[i].phys, regions[i].pages)
  }

  /** The frame is a page table of the process or belongs to one of its regions. */
  ghost predicate Holds(m: PageMap, regions: seq<Region>, f: int) {
    (exists t :: t in m && m[t].frame == f) || FrameHeld(regions, f)
  }

  /** Both page maps have the same page tables. */
  ghost predicate SameTables(m: PageMap, m': PageMap) {
    m'.Keys == m.Keys && forall t :: t in m ==> m'[t].frame == m[t].frame
  }

  /** A step of one process gives back only its own frames and takes only free ones. */
  ghost predicate Frugal(m: PageMap, regions: seq<Region>, used: seq<bool>, m': PageMap, regions': seq<Region>,
                         used': seq<bool>)
    requires |used| == |used'| == TOTAL_PAGES
  {
    && (forall f :: 0 <= f < TOTAL_PAGES && used[f] && !used'[f] ==> Holds(m, regions, f))
    && (forall f :: 0 <= f < TOTAL_PAGES && Holds(m', regions', f) ==> Holds(m, regions, f) || !used[f])
  }

  /** Taking frames: tables and the new region come from free frames. */
  lemma TakingIsFrugal(m: PageMap, regions: seq<Region>, used: seq<bool>, m': PageMap, regions': seq<Region>,
                       used': seq<bool>)
    requires |used| == |used'| == TOTAL_PAGES && forall f :: 0 <= f < TOTAL_PAGES && used[f] ==> used'[f]
    requires forall t :: t in m' ==>
      0 <= m'[t].frame < TOTAL_PAGES && ((t in m && m'[t].frame == m[t].frame) || !used[m'[t].frame])
    requires regions' == regions || (|regions'| == |regions| + 1 && regions'[1..] == regions)
    requires regions' != regions && regions'[0].release ==>
      forall f :: 0 <= f < TOTAL_PAGES && InRun(f, regions'[0].phys, regions'[0].pages) ==> !used[f]
    ensures Frugal(m, regions, used, m', regions', used')
  {
    forall f | 0 <= f < TOTAL_PAGES && Holds(m', regions', f) ensures Holds(m, regions, f) || !used[f] {
      if FrameHeld(regions', f) && regions' != regions {
        var i :| 0 <= i < |regions'| && regions'[i].release && InRun(f, regions'[i].phys, regions'[i].pages);
        assert i > 0 ==> regions'[i] == regions[i - 1];
      }
    }
  }

  /** Giving frames back: no table changes and every region left was there. */
  lemma GivingIsFrugal(m: PageMap, regions: seq<Region>, used: seq<bool>, m': PageMap, regions': seq<Region>,
                       used': seq<bool>)
    requires |used| == |used'| == TOTAL_PAGES && SameTables(m, m')
    requires forall i :: 0 <= i < |regions'| ==> regions'[i] in regions
    requires forall f :: 0 <= f < TOTAL_PAGES && used[f] && !used'[f] ==> FrameHeld(regions, f)
    ensures Frugal(m, regions, used, m', regions', used')
  {
    forall f | 0 <= f < TOTAL_PAGES && FrameHeld(regions', f) ensures FrameHeld(regions, f) {
      var i :| 0 <= i < |regions'| && regions'[i].release && InRun(f, regions'[i].phys, regions'[i].pages);
      var j :| 0 <= j < |regions| && regions[j] == regions'[i];
    }
  }

  // ---------- Several processes ----------

  datatype Space = Space(tables: PageMap, regions: seq<Region>)

  ghost predicate FramesApart(a: Space, b: Space) {
    forall f :: !(Holds(a.tables, a.regions, f) && Holds(b.tables, b.regions, f))
  }

  /** Every process is well formed, and no two of them hold a frame in common. */
  ghost predicate MachineOk(ps: seq<Space>, used: seq<bool>) {
    && (forall i :: 0 <= i < |ps| ==> VirtualOk(ps[i].tables, ps[i].regions) && FramesOk(ps[i].tables, ps[i].regions, used))
    && (forall i, j :: 0 <= i < |ps| && 0 <= j < |ps| && i != j ==> FramesApart(ps[i], ps[j]))
  }

  /** The frames that a process holds are taken. */
  lemma HeldIsUsed(s: Space, used: seq<bool>, f: int)
    requires FramesOk(s.tables, s.regions, used) && Holds(s.tables, s.regions, f)
    ensures 0 <= f < MAXMAP && used[f]
  {
    if FrameHeld(s.regions, f) {
      var i :| 0 <= i < |s.regions| && s.regions[i].release && InRun(f, s.regions[i].phys, s.regions[i].pages);
      assert Owned(s.regions[i], used);
    }
  }

  /** A frugal step of one process leaves another process as it was, and apart from it. */
  lemma OtherUntouched(a: Space, a': Space, b: Space, used: seq<bool>, used': seq<bool>)
    requires |used| == |used'| == TOTAL_PAGES && FramesOk(b.tables, b.regions, used)
    requires FramesOk(a'.tables, a'.regions, used')
    requires FramesApart(a, b) && Frugal(a.tables, a.regions, used, a'.tables, a'.regions, used')
    ensures FramesOk(b.tables, b.regions, used') && FramesApart(a', b)
  {
    forall f | Holds(b.tables, b.regions, f) ensures 0 <= f < MAXMAP && used'[f] && !Holds(a'.tables, a'.regions, f) {
      HeldIsUsed(b, used, f);
    }
    hide Frugal, FramesApart;
    forall t | t in b.tables ensures used'[b.tables[t].frame] {
      assert Holds(b.tables, b.regions, b.tables[t].frame);
    }
    forall i | 0 <= i < |b.regions| && b.regions[i].release ensures Owned(b.regions[i], used') {
      assert Owned(b.regions[i], used);
      forall f | b.regions[i].phys <= f < b.regions[i].phys + b.regions[i].pages ensures used'[f] {
        assert InRun(f, b.regions[i].phys, b.regions[i].pages);
        assert FrameHeld(b.regions, f);
      }
    }
  }

  /** A frugal step of one of many processes. */
  lemma MachineStep(ps: seq<Space>, used: seq<bool>, i: nat, s: Space, used': seq<bool>)
    requires i < |ps| && |used| == |used'| == TOTAL_PAGES && MachineOk(ps, used)
    requires VirtualOk(s.tables, s.regions) && FramesOk(s.tables, s.regions, used')
    requires Frugal(ps[i].tables, ps[i].regions, used, s.tables, s.regions, used')
    ensures MachineOk(ps[i := s], used')
  {
    hide VirtualOk, FramesOk, Frugal, FramesApart;
    forall j | 0 <= j < |ps| && j != i
      ensures FramesOk(ps[j].tables, ps[j].regions, used') && FramesApart(s, ps[j]) && FramesApart(ps[j], s)
    {
      OtherUntouched(ps[i], s, ps[j], used, used');
      ApartSymmetric(s, ps[j]);
    }
  }

  lemma ApartSymmetric(a: Space, b: Space)
    requires FramesApart(a, b)
    ensures FramesApart(b, a)
  {
  }

  lemma EmptyPrefix(regions: seq<Region>)
    ensures (forall q: nat :: !Covered(regions[..0], q)) && (forall f :: !FrameHeld(regions[..0], f))
  {
  }

  lemma PrefixGrows(regions: seq<Region>, n: nat)
    requires n < |regions|
    ensures forall q: nat :: Covered(regions[..n + 1], q) ==
              (Covered(regions[..n], q) || InRun(q, regions[n].virt, regions[n].pages))
    ensures forall f :: FrameHeld(regions[..n + 1], f) ==
              (FrameHeld(regions[..n], f) || (regions[n].release && InRun(f, regions[n].phys, regions[n].pages)))
  {
    var a, b := regions[..n], regions[..n + 1];
    assert b == a + [regions[n]];
    forall q: nat ensures Covered(b, q) == (Covered(a, q) || InRun(q, regions[n].virt, regions[n].pages)) {
      assert b[n] == regions[n];
      assert forall i :: 0 <= i < n ==> b[i] == a[i];
    }
    forall f ensures FrameHeld(b, f) == (FrameHeld(a, f) || (regions[n].release && InRun(f, regions[n].phys, regions[n].pages))) {
      assert b[n] == regions[n];
      assert forall i :: 0 <= i < n ==> b[i] == a[i];
    }
  }

  class UserSpace {
    const phys: PhysMem
    const base: nat
    const ceiling: nat
    var tables: PageMap
    var regions: seq<Region>

    ghost predicate Valid()
      reads this, phys
    {
      phys.Valid() && VirtualOk(tables, regions) && FramesOk(tables, regions, phys.used)
    }

    constructor (phys: PhysMem, base: nat, ceiling: nat)
      requires phys.Valid()
      ensures Valid() && regions == [] && this.phys == phys && this.base == base && this.ceiling == ceiling
    {
      this.phys, this.base, this.ceiling := phys, base, ceiling;
      tables, regions := map[], [];
    }

    /** The part of page_direct_map that makes sure of a page table. */
    method EnsureTable(t: nat) returns (ok: bool)
      requires Valid()
      modifies this`tables, phys
      ensures Valid() && (ok ==> t in tables) && (ok <==> t in old(tables) || old(phys.Grants(1)))
      ensures !ok ==> phys.Exhausted() && tables == old(tables)
      ensures forall f :: 0 <= f < TOTAL_PAGES && old(phys.used)[f] ==> phys.used[f]
      ensures forall x :: x in tables ==>
        (x in old(tables) && tables[x] == old(tables)[x]) || (x == t && !old(phys.used)[tables[x].frame])
      ensures forall q: nat :: Lookup(tables, q) == Lookup(old(tables), q)
      ensures old(tables).Keys <= tables.Keys
    {
      hide Lookup, VirtualOk, FramesOk;
      if t in tables {
        return true;
      }
      ghost var before := phys.used;
      var f := phys.Alloc(1);
      hide CanGrant, FirstRun;
      if f.None? {
        forall g | 0 <= g < MAXMAP && !phys.used[g] ensures FreeRun(phys.used, g, 1) {
        }
        return false;
      }
      TableStep(tables, regions, before, phys.used, t, f.value);
      forall q: nat ensures Lookup(tables[t := Table(f.value, map[])], q) == Lookup(tables, q) {
        NewTableLookup(tables, t, f.value, q);
      }
      tables := tables[t := Table(f.value, map[])];
      return true;
    }

    /** One round of page_direct_map. */
    method MapPage(frame: nat, page: nat) returns (ok: bool)
      requires Valid() && Lookup(tables, page).None?
      modifies this`tables, phys
      ensures Valid() && old(tables).Keys <= tables.Keys
      ensures forall f :: 0 <= f < TOTAL_PAGES && old(phys.used)[f] ==> phys.used[f]
      ensures forall t :: t in tables ==>
        && tables[t].frame < TOTAL_PAGES
        && ((t in old(tables) && tables[t].frame == old(tables)[t].frame) || !old(phys.used)[tables[t].frame])
      ensures ok ==> forall q: nat :: Lookup(tables, q) == if q == page then Some(frame) else Lookup(old(tables), q)
      ensures ok <==> TableOf(page) in old(tables) || old(phys.Grants(1))
      ensures !ok ==> phys.Exhausted() && tables == old(tables)
    {
      hide Lookup, VirtualOk, CanGrant;
      ok := EnsureTable(page / TABLE);
      if !ok {
        return;
      }
      AbsentOutside(tables, regions, page);
      forall q: nat ensures Lookup(SetEntry(tables, page, frame), q) == if q == page then Some(frame) else Lookup(tables, q) {
        SetEntryLookup(tables, page, frame, q);
      }
      EntryStep(tables, SetEntry(tables, page, frame), regions, phys.used, page);
      tables := SetEntry(tables, page, frame);
    }

    /** page_direct_map: maps `pages` pages from `start` to the frames from `frame`. Not ok: a page table was NULL. */
    method DirectMap(frame: nat, start: nat, pages: nat) returns (ok: bool)
      requires Valid() && RunFree(tables, start, pages)
      modifies this`tables, phys
      ensures Valid()
      ensures forall f :: 0 <= f < TOTAL_PAGES && old(phys.used)[f] ==> phys.used[f]
      ensures forall t :: t in tables ==>
        (t in old(tables) && tables[t].frame == old(tables)[t].frame) || !old(phys.used)[tables[t].frame]
      ensures ok ==>
        forall q: nat :: Lookup(tables, q) == if InRun(q, start, pages) then Some(frame + (q - start)) else Lookup(old(tables), q)
      ensures !ok ==> phys.Exhausted() && TableMissing(old(tables), start, pages)
    {
      TableFrames(tables, regions, phys.used);
      hide Lookup, VirtualOk, FramesOk, CanGrant;
      var i := 0;
      while i < pages
        invariant i <= pages && Valid() && old(tables).Keys <= tables.Keys
        invariant forall f :: 0 <= f < TOTAL_PAGES && old(phys.used)[f] ==> phys.used[f]
        invariant forall t :: t in tables ==>
          (t in old(tables) && tables[t].frame == old(tables)[t].frame) || !old(phys.used)[tables[t].frame]
        invariant forall q: nat ::
          Lookup(tables, q) == if InRun(q, start, i) then Some(frame + (q - start)) else Lookup(old(tables), q)
      {
        assert Lookup(old(tables), start + i).None?;
        ok := MapPage(frame + i, start + i);
        TableFrames(tables, regions, phys.used);
        if !ok {
          assert TableOf(start + i) !in old(tables);
          return;
        }
        i := i + 1;
      }
      return true;
    }

    /** page_find_free and page_direct_map, and the new region at the head of the list. */
    method Provide(frame: nat, pages: nat, release: bool) returns (r: Outcome)
      requires Valid() && pages > 0
      requires release ==> Owned(Region(0, frame, pages, true), phys.used)
      requires release ==>
        forall i :: 0 <= i < |regions| && regions[i].release ==> PhysApart(regions[i], Region(0, frame, pages, true))
      requires release ==> forall t :: t in tables ==> !InRun(tables[t].frame, frame, pages)
      modifies this, phys
      ensures Valid()
      ensures forall f :: 0 <= f < TOTAL_PAGES && old(phys.used)[f] ==> phys.used[f]
      ensures r.Mapped? ==> base <= r.page < ceiling && RunFree(old(tables), r.page, pages)
      ensures r.Mapped? ==> forall q :: base <= q < r.page ==> !RunFree(old(tables), q, pages)
      ensures r.Mapped? ==> regions == [Region(r.page, frame, pages, release)] + old(regions)
      ensures r.Mapped? ==>
        forall q: nat :: Lookup(tables, q) == if InRun(q, r.page, pages) then Some(frame + (q - r.page)) else Lookup(old(tables), q)
      ensures r.NoMemory? <==> forall q :: base <= q < ceiling ==> !RunFree(old(tables), q, pages)
      ensures r.NullTable? ==> phys.Exhausted() && LacksTable(old(tables), base, ceiling, pages)
      ensures r.NoMemory? ==>
        tables == old(tables) && phys.used == old(phys.used) && phys.freePages == old(phys.freePages)
      ensures !r.Mapped? ==> regions == old(regions)
      ensures forall t :: t in tables ==>
        && tables[t].frame < TOTAL_PAGES
        && ((t in old(tables) && tables[t].frame == old(tables)[t].frame) || !old(phys.used)[tables[t].frame])
    {
      TableFrames(tables, regions, phys.used);
      hide Lookup, VirtualOk, FramesOk, RunFree, TableMissing;
      var page := FindFree(tables, base, ceiling, pages);
      if page.None? {
        return NoMemory;
      }
      var ok := DirectMap(frame, page.value, pages);
      TableFrames(tables, regions, phys.used);
      if !ok {
        return NullTable;
      }
      var region := Region(page.value, frame, pages, release);
      RegionStep(old(tables), tables, regions, phys.used, region);
      regions := [region] + regions;
      return Mapped(page.value);
    }

    /** user_alloc; `mem` is the success of the malloc of the list entry. */
    method Alloc(pages: nat, mem: bool) returns (r: Outcome)
      requires Valid() && pages <= SPAN_LIMIT
      modifies this, phys
      ensures Valid()
      ensures !r.Mapped? ==> regions == old(regions)
      ensures r.NoMemory? ==>
        phys.used == old(phys.used) && phys.freePages == old(phys.freePages) && tables == old(tables)
      ensures r.NoMemory? <==>
        || pages == 0 || !old(phys.Grants(pages)) || !mem
        || forall q :: base <= q < ceiling ==> !RunFree(old(tables), q, pages)
      ensures r.NullTable? ==> phys.Exhausted() && LacksTable(old(tables), base, ceiling, pages)
      ensures r.Mapped? ==> LowestFree(old(tables), base, ceiling, pages, r.page)
      ensures r.Mapped? ==> |regions| == |old(regions)| + 1 && regions[1..] == old(regions)
      ensures r.Mapped? ==> regions[0].virt == r.page && regions[0].pages == pages && regions[0].release
      ensures r.Mapped? ==> FirstRun(old(phys.used), old(phys.lastPage), pages, regions[0].phys)
      ensures r.Mapped? ==> forall f :: InRun(f, regions[0].phys, pages) ==> !old(phys.used)[f]
      ensures r.Mapped? ==> forall q: nat :: !InRun(q, r.page, pages) ==> Lookup(tables, q) == Lookup(old(tables), q)
      ensures Frugal(old(tables), old(regions), old(phys.used), tables, regions, phys.used)
    {
      TableFrames(tables, regions, phys.used);
      hide Lookup, VirtualOk, FramesOk, RunFree, Frugal, LacksTable, CanGrant, FirstRun, FreeRun;
      TakingIsFrugal(tables, regions, phys.used, tables, regions, phys.used);
      if pages == 0 {
        return NoMemory;
      }
      var location := phys.Alloc(pages);
      if location.None? {
        return NoMemory;
      }
      ghost var region := Region(0, location.value, pages, true);
      assert forall i :: 0 <= i < |regions| ==> regions[i].pages > 0 by {
        PagesPositive(tables, regions);
      }
      FreshRun(tables, regions, old(phys.used), phys.used, region);
      if !mem {
        phys.Free(pages, location.value);
        assert phys.used == old(phys.used);
        return NoMemory;
      }
      r := Provide(location.value, pages, true);
      if r.NoMemory? {
        phys.Free(pages, location.value);
        assert phys.used == old(phys.used);
      } else {
        TakingIsFrugal(old(tables), old(regions), old(phys.used), tables, regions, phys.used);
      }
    }

    /** user_map: the frames are the caller's and are never given back by user_free. */
    method Map(frame: nat, pages: nat) returns (r: Outcome)
      requires Valid() && pages <= SPAN_LIMIT
      modifies this, phys
      ensures Valid()
      ensures r.Mapped? ==>
        && base <= r.page < ceiling && RunFree(old(tables), r.page, pages)
        && (forall q :: base <= q < r.page ==> !RunFree(old(tables), q, pages))
        && regions == [Region(r.page, frame, pages, false)] + old(regions)
      ensures r.NoMemory? <==> pages == 0 || forall q :: base <= q < ceiling ==> !RunFree(old(tables), q, pages)
      ensures r.NullTable? ==> phys.Exhausted() && LacksTable(old(tables), base, ceiling, pages)
      ensures !r.Mapped? ==> regions == old(regions)
      ensures r.Mapped? ==>
        forall q: nat :: Lookup(tables, q) == if InRun(q, r.page, pages) then Some(frame + (q - r.page)) else Lookup(old(tables), q)
      ensures Frugal(old(tables), old(regions), old(phys.used), tables, regions, phys.used)
    {
      TableFrames(tables, regions, phys.used);
      hide Lookup, VirtualOk, FramesOk, RunFree, Frugal, LacksTable;
      TakingIsFrugal(tables, regions, phys.used, tables, regions, phys.used);
      if pages == 0 {
        return NoMemory;
      }
      r := Provide(frame, pages, false);
      TakingIsFrugal(old(tables), old(regions), old(phys.used), tables, regions, phys.used);
    }

    /** page_release of a run that no region holds any more. */
    method Release(start: nat, pages: nat)
      requires Valid()
      requires forall i :: 0 <= i < |regions| ==>
        regions[i].virt + regions[i].pages <= start || start + pages <= regions[i].virt
      modifies this`tables
      ensures Valid()
      ensures forall q: nat :: Lookup(tables, q) == if InRun(q, start, pages) then None else Lookup(old(tables), q)
      ensures SameTables(old(tables), tables)
    {
      hide Lookup, VirtualOk, FramesOk;
      var i := 0;
      while i < pages
        invariant i <= pages && Valid()
        invariant forall q: nat :: Lookup(tables, q) == if InRun(q, start, i) then None else Lookup(old(tables), q)
        invariant tables.Keys == old(tables).Keys && forall t :: t in tables ==> tables[t].frame == old(tables)[t].frame
      {
        var index := start + i;
        if Lookup(tables, index).Some? {
          PresentTable(tables, index);
          forall q: nat ensures Lookup(ClearEntry(tables, index), q) == if q == index then None else Lookup(tables, q) {
            ClearEntryLookup(tables, index, q);
          }
          EntryStep(tables, ClearEntry(tables, index), regions, phys.used, index);
          tables := ClearEntry(tables, index);
        }
        i := i + 1;
      }
    }

    /** user_free: unmaps exactly the pages of the region at `page` and gives back exactly its frames. */
    method Free(page: nat)
      requires Valid()
      modifies this, phys
      ensures Valid()
      ensures (forall i :: 0 <= i < |old(regions)| ==> old(regions)[i].virt != page) ==>
        regions == old(regions) && tables == old(tables) && phys.used == old(phys.used)
      ensures forall k :: 0 <= k < |old(regions)| && old(regions)[k].virt == page ==>
        Freed(old(tables), old(regions), old(phys.used), k, tables, regions, phys.used)
      ensures Frugal(old(tables), old(regions), old(phys.used), tables, regions, phys.used)
    {
      hide Lookup, VirtualOk, FramesOk, Frugal;
      GivingIsFrugal(tables, regions, phys.used, tables, regions, phys.used);
      var k := 0;
      while k < |regions| && regions[k].virt != page
        invariant k <= |regions| && forall i :: 0 <= i < k ==> regions[i].virt != page
      {
        k := k + 1;
      }
      if k == |regions| {
        return;
      }
      var mem := regions[k];
      OnlyRegionAt(tables, regions, k);
      RemoveRegion(tables, regions, phys.used, k);
      RegionFrames(tables, regions, phys.used, k);
      regions := RemoveAt(regions, k);
      if mem.release {
        phys.Free(mem.pages, mem.phys);
        GiveBack(tables, regions, old(phys.used), phys.used, mem);
      }
      Release(mem.virt, mem.pages);
      FreedIsFrugal(old(tables), old(regions), old(phys.used), k, tables, regions, phys.used);
    }

    /** One round of user_release_all. */
    method FreeFirst()
      requires Valid() && regions != []
      modifies this, phys
      ensures Valid() && regions == old(regions)[1..] && SameTables(old(tables), tables)
      ensures var r := old(regions)[0];
        && (forall q: nat :: Lookup(tables, q) == if InRun(q, r.virt, r.pages) then None else Lookup(old(tables), q))
        && (forall f :: 0 <= f < TOTAL_PAGES ==>
              phys.used[f] == (old(phys.used)[f] && !(r.release && InRun(f, r.phys, r.pages))))
    {
      hide Lookup, VirtualOk, FramesOk, Frugal;
      Free(regions[0].virt);
      assert Freed(old(tables), old(regions), old(phys.used), 0, tables, regions, phys.used);
    }

    /** user_release_all: no region is left, its pages are absent and its own frames free; nothing else changes. */
    method FreeAll()
      requires Valid()
      modifies this, phys
      ensures Valid() && regions == []
      ensures forall q: nat :: Lookup(tables, q) == if Covered(old(regions), q) then None else Lookup(old(tables), q)
      ensures forall f :: 0 <= f < TOTAL_PAGES ==> phys.used[f] == (old(phys.used)[f] && !FrameHeld(old(regions), f))
      ensures Frugal(old(tables), old(regions), old(phys.used), tables, regions, phys.used)
    {
      hide Lookup, VirtualOk, FramesOk, Frugal, Covered, FrameHeld;
      EmptyPrefix(regions);
      var n := 0;
      while |regions| > 0
        invariant Valid() && n + |regions| == |old(regions)| && regions == old(regions)[n..]
        invariant SameTables(old(tables), tables)
        invariant forall q: nat :: Lookup(tables, q) == if Covered(old(regions)[..n], q) then None else Lookup(old(tables), q)
        invariant forall f :: 0 <= f < TOTAL_PAGES ==>
          phys.used[f] == (old(phys.used)[f] && !FrameHeld(old(regions)[..n], f))
        decreases |regions|
      {
        FreeFirst();
        PrefixGrows(old(regions), n);
        n := n + 1;
      }
      assert old(regions)[..n] == old(regions);
      GivingIsFrugal(old(tables), old(regions), old(phys.used), tables, regions, phys.used);
    }
  }

  /** The processes of a machine, which share its physical memory. */
  class Machine {
    const phys: PhysMem
    const processes: seq<UserSpace>

    ghost function Spaces(): (ps: seq<Space>)
      reads processes
    {
      seq(|processes|, i requires 0 <= i < |processes| reads processes => Space(processes[i].tables, processes[i].regions))
    }

    ghost predicate Valid()
      reads processes, phys
    {
      && phys.Valid() && MachineOk(Spaces(), phys.used)
      && (forall i :: 0 <= i < |processes| ==> processes[i].phys == phys)
      && (forall i, j :: 0 <= i < j < |processes| ==> processes[i] != processes[j])
    }

    constructor (phys: PhysMem, processes: seq<UserSpace>)
      requires phys.Valid()
      requires forall i :: 0 <= i < |processes| ==> processes[i].phys == phys
      requires forall i :: 0 <= i < |processes| ==> processes[i].regions == [] && processes[i].tables == map[]
      requires forall i, j :: 0 <= i < j < |processes| ==> processes[i] != processes[j]
      ensures Valid() && this.phys == phys && this.processes == processes
    {
      this.phys, this.processes := phys, processes;
    }

    /** user_alloc in one process. */
    method Alloc(i: nat, pages: nat, mem: bool) returns (r: Outcome)
      requires Valid() && i < |processes| && pages <= SPAN_LIMIT
      modifies processes[i], phys
      ensures Valid() && forall j :: 0 <= j < |processes| && j != i ==> Spaces()[j] == old(Spaces())[j]
      ensures var now, before := processes[i].regions, old(processes[i].regions);
        if r.Mapped? then
          && |now| == |before| + 1 && now[1..] == before && now[0].virt == r.page && now[0].pages == pages && now[0].release
          && forall f :: 0 <= f < TOTAL_PAGES && InRun(f, now[0].phys, pages) ==> !old(phys.used)[f]
        else now == before
      ensures var s, p := old(Spaces())[i], processes[i];
        && (r.NoMemory? <==>
              || pages == 0 || !old(phys.Grants(pages)) || !mem
              || forall q :: p.base <= q < p.ceiling ==> !RunFree(s.tables, q, pages))
        && (r.Mapped? ==>
              && LowestFree(s.tables, p.base, p.ceiling, pages, r.page)
              && FirstRun(old(phys.used), old(phys.lastPage), pages, p.regions[0].phys))
        && (r.NullTable? ==> phys.Exhausted() && LacksTable(s.tables, p.base, p.ceiling, pages))
    {
      hide MachineOk, Frugal, VirtualOk, FramesOk, RunFree, LacksTable, LowestFree, CanGrant, FirstRun;
      ghost var ps, used := Spaces(), phys.used;
      MachineAt(ps, used, i);
      r := processes[i].Alloc(pages, mem);
      MachineStep(ps, used, i, Spaces()[i], phys.used);
      assert Spaces() == ps[i := Spaces()[i]];
    }

    /** user_map in one process. */
    method Map(i: nat, frame: nat, pages: nat) returns (r: Outcome)
      requires Valid() && i < |processes| && pages <= SPAN_LIMIT
      modifies processes[i], phys
      ensures Valid() && forall j :: 0 <= j < |processes| && j != i ==> Spaces()[j] == old(Spaces())[j]
      ensures processes[i].regions ==
        if r.Mapped? then [Region(r.page, frame, pages, false)] + old(processes[i].regions) else old(processes[i].regions)
      ensures var s, p := old(Spaces())[i], processes[i];
        && (r.NoMemory? <==> pages == 0 || forall q :: p.base <= q < p.ceiling ==> !RunFree(s.tables, q, pages))
        && (r.Mapped? ==> LowestFree(s.tables, p.base, p.ceiling, pages, r.page))
        && (r.Mapped? ==> forall q: nat ::
              Lookup(p.tables, q) == if InRun(q, r.page, pages) then Some(frame + (q - r.page)) else Lookup(s.tables, q))
        && (r.NullTable? ==> phys.Exhausted() && LacksTable(s.tables, p.base, p.ceiling, pages))
    {
      hide MachineOk, Frugal, VirtualOk, FramesOk, RunFree, LacksTable, Lookup;
      ghost var ps, used := Spaces(), phys.used;
      MachineAt(ps, used, i);
      r := processes[i].Map(frame, pages);
      MachineStep(ps, used, i, Spaces()[i], phys.used);
      assert Spaces() == ps[i := Spaces()[i]];
    }

    /** user_free in one process. */
    method Free(i: nat, page: nat)
      requires Valid() && i < |processes|
      modifies processes[i], phys
      ensures Valid() && forall j :: 0 <= j < |processes| && j != i ==> Spaces()[j] == old(Spaces())[j]
      ensures var s, s' := old(Spaces())[i], Spaces()[i];
        forall k :: 0 <= k < |s.regions| && s.regions[k].virt == page ==>
          Freed(s.tables, s.regions, old(phys.used), k, s'.tables, s'.regions, phys.used)
      ensures (forall k :: 0 <= k < |old(processes[i].regions)| ==> old(processes[i].regions)[k].virt != page) ==>
        Spaces() == old(Spaces()) && phys.used == old(phys.used)
    {
      hide MachineOk, Frugal, VirtualOk, FramesOk, Freed;
      ghost var ps, used := Spaces(), phys.used;
      MachineAt(ps, used, i);
      processes[i].Free(page);
      MachineStep(ps, used, i, Spaces()[i], phys.used);
      assert Spaces() == ps[i := Spaces()[i]];
    }

    /** user_release_all in one process. */
    method FreeAll(i: nat)
      requires Valid() && i < |processes|
      modifies processes[i], phys
      ensures Valid() && processes[i].regions == []
      ensures forall j :: 0 <= j < |processes| && j != i ==> Spaces()[j] == old(Spaces())[j]
      ensures var s := old(Spaces())[i];
        && (forall q: nat :: Lookup(processes[i].tables, q) == if Covered(s.regions, q) then None else Lookup(s.tables, q))
        && (forall f :: 0 <= f < TOTAL_PAGES ==> phys.used[f] == (old(phys.used)[f] && !FrameHeld(s.regions, f)))
    {
      hide MachineOk, Frugal, VirtualOk, FramesOk, Lookup, Covered, FrameHeld;
      ghost var ps, used := Spaces(), phys.used;
      MachineAt(ps, used, i);
      processes[i].FreeAll();
      MachineStep(ps, used, i, Spaces()[i], phys.used);
      assert Spaces() == ps[i := Spaces()[i]];
    }
  }

  lemma MachineAt(ps: seq<Space>, used: seq<bool>, i: nat)
    requires MachineOk(ps, used) && i < |ps|
    ensures VirtualOk(ps[i].tables, ps[i].regions) && FramesOk(ps[i].tables, ps[i].regions, used)
  {
  }
}
