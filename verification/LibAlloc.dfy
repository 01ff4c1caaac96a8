/**
  malloc and free of kernel/libsmk/liballoc.c. `hook` is what the page hook liballoc_alloc would
  return for this call: the address of fresh pages, or None.
 */
module LibAlloc {
  import opened Bits
  import opened Seqs
  import opened LibAllocBlocks

  // ---------- Alignment ----------

  /** The distance that ALIGN moves a pointer, which it stores just below the result. */
  function AlignShift(p: nat): (d: nat)
    ensures ALIGN_INFO <= d < ALIGNMENT + ALIGN_INFO
    ensures (p + d) % ALIGNMENT == 0
  {
    var diff := (p + ALIGN_INFO) % ALIGNMENT;
    if diff == 0 then ALIGN_INFO else ALIGN_INFO + (ALIGNMENT - diff)
  }

  /** The pointer handed to the user for a minor. */
  function UserPtr(n: Minor): nat {
    n.addr + MINOR + AlignShift(n.addr + MINOR)
  }

  /** Distinct headers give distinct user pointers: unaligning finds the header again. */
  lemma UserPtrInjective(a: Minor, b: Minor)
    requires a.End() <= b.addr || b.End() <= a.addr
    requires a.size >= ALIGNMENT + ALIGN_INFO && b.size >= ALIGNMENT + ALIGN_INFO
    ensures UserPtr(a) != UserPtr(b)
  {
  }

  // ---------- Sizes in 32-bit arithmetic ----------

  /** The request with the padding for alignment. */
  function Size32(req: nat): (size: nat)
    ensures size < TWO32
  {
    (req + ALIGNMENT + ALIGN_INFO) % TWO32
  }

  /** The room that the five cases look for: the size and a header. */
  function Need32(size: nat): (need: nat)
    ensures need < TWO32
  {
    (size + MINOR) % TWO32
  }

  /** The number of pages that allocate_new_page asks for. */
  function Pages32(size: nat): (pages: nat)
    ensures pages >= PAGE_COUNT
  {
    var st := (size + MAJOR + MINOR) % TWO32;
    var p := if st % PAGE_SIZE == 0 then st / PAGE_SIZE else st / PAGE_SIZE + 1;
    if p < PAGE_COUNT then PAGE_COUNT else p
  }

  /** No size computation for the request wraps. */
  predicate Plain(req: nat) { req + ALIGNMENT + ALIGN_INFO + MAJOR + MINOR < TWO32 }

  /** A request whose padded size is 0 is served as a request for one byte. */
  function Served(req: nat): nat { if Size32(req) == 0 then 1 else req }

  /** The padded size is the true one if and only if the padding does not wrap. */
  lemma SizeExact(req: nat)
    requires req < TWO32
    ensures Size32(req) == req + ALIGNMENT + ALIGN_INFO <==> req + ALIGNMENT + ALIGN_INFO < TWO32
    ensures Size32(req) == 0 <==> req == TWO32 - ALIGNMENT - ALIGN_INFO
  {
  }

  /** The comparison that all five cases make. */
  predicate Enough(room: nat, need: nat) { room >= need }

  /** It agrees with the true comparison on every amount of room if and only if size and header do not wrap. */
  lemma NeedExact(size: nat)
    requires size < TWO32
    ensures (forall room: nat :: room < TWO32 ==> Enough(room, Need32(size)) == Enough(room, size + MINOR))
            <==> size + MINOR < TWO32
  {
    assert Enough(TWO32 - 1, Need32(size));
    assert Enough(TWO32 - 1, size + MINOR) <==> size + MINOR < TWO32;
  }

  /** The pages asked for hold the request if and only if size and both headers do not wrap. */
  lemma PagesExact(size: nat)
    requires size < TWO32
    ensures Pages32(size) * PAGE_SIZE >= size + MAJOR + MINOR <==> size + MAJOR + MINOR < TWO32
    ensures Pages32(size) * PAGE_SIZE - MAJOR < Need32(size) <==> TwoBlocks(size)
  {
    var st := (size + MAJOR + MINOR) % TWO32;
    assert size + MAJOR + MINOR >= TWO32 ==> st == size + MAJOR + MINOR - TWO32 < MAJOR + MINOR;
    assert st < PAGE_SIZE ==> Pages32(size) == PAGE_COUNT;
  }

  /** The page count alone wraps, so that a new block cannot pass the test that led to it. */
  predicate TwoBlocks(size: nat) { size + MINOR < TWO32 <= size + MAJOR + MINOR }

  /** Every block there can be serves a request of 0xFFFFFFE2 bytes: the room needed wraps to 0. */
  lemma WrappedNeedAlwaysFits(m: Major)
    requires MajorOk(m)
    ensures var size := Size32(0xFFFF_FFE2); Has(m, Need32(size)) && !Has(m, size + MINOR)
  {
    assert Size32(0xFFFF_FFE2) + MINOR == TWO32 && Need32(Size32(0xFFFF_FFE2)) == 0;
    assert GapStart(m, 0) <= GapEnd(m, 0);
    assert GapHas(m, 0, 0);
    forall k | 0 <= k <= |m.minors| ensures !GapHas(m, k, TWO32) {
      GapWithinFree(m, k);
    }
  }

  // ---------- The heap ----------

  function InUse(m: Major): nat { Sum(m.minors, SizeOf) }

  function BlockSize(m: Major): nat { m.size }

  predicate Apart(m: Major, n: Major) { m.End() <= n.addr || n.End() <= m.addr }

  ghost predicate BlocksOk(majors: seq<Major>) {
    && (forall i :: 0 <= i < |majors| ==> MajorOk(majors[i]) && RoomyMinors(majors[i]))
    && (forall i, j :: 0 <= i < j < |majors| ==> Apart(majors[i], majors[j]))
  }

  ghost predicate RoomyMinors(m: Major) {
    forall k :: 0 <= k < |m.minors| ==> m.minors[k].size == m.minors[k].req + ALIGNMENT + ALIGN_INFO
  }

  ghost predicate NoneEmpty(majors: seq<Major>) {
    forall i :: 0 <= i < |majors| ==> majors[i].minors != []
  }

  ghost predicate Known(majors: seq<Major>, bet: Option<nat>) {
    bet.Some? ==> exists i :: 0 <= i < |majors| && majors[i].addr == bet.value
  }

  /** The live allocations. */
  ghost function Minors(majors: seq<Major>): set<Minor> {
    set m, n | m in majors && n in m.minors :: n
  }

  function NewMajor(addr: nat, pages: nat): Major {
    Major(addr, pages, pages * PAGE_SIZE, MAJOR, [])
  }

  /** What the page hook returns, if anything: pages in the address space, apart from the blocks there are. */
  ghost predicate HookOk(hook: Option<nat>, pages: nat, majors: seq<Major>) {
    hook.Some? ==>
      && PAGE_SIZE <= hook.value && hook.value + pages * PAGE_SIZE <= TWO32
      && forall m :: m in majors ==> Apart(NewMajor(hook.value, pages), m)
  }

  lemma NewMajorOk(addr: nat, pages: nat)
    requires pages > 0 && HookOk(Some(addr), pages, [])
    ensures MajorOk(NewMajor(addr, pages))
  {
  }

  /** A fresh block is well formed and has room for the request it was made for if and only if the sizes do not wrap. */
  lemma FreshBlockFits(addr: nat, size: nat)
    requires size < TWO32 && HookOk(Some(addr), Pages32(size), [])
    ensures MajorOk(NewMajor(addr, Pages32(size)))
    ensures GapHas(NewMajor(addr, Pages32(size)), 0, size + MINOR) <==> size + MAJOR + MINOR < TWO32
  {
    PagesExact(size);
  }

  // ---------- The pointer given to free ----------

  /** UNALIGN: the header address computed from a pointer and the 16-bit word stored below it. */
  function Header(ptr: nat, word: nat): int {
    (if word < ALIGNMENT + ALIGN_INFO then ptr - word else ptr) - MINOR
  }

  /**
    What lies below a pointer where the allocator itself wrote it: below a user pointer the distance that
    ALIGN moved it, below the end of a header the upper half of req_size.
   */
  ghost predicate Stored(majors: seq<Major>, ptr: nat, word: nat) {
    forall n :: n in Minors(majors) ==>
      && (ptr == UserPtr(n) ==> word == AlignShift(n.addr + MINOR))
      && (ptr == n.addr + MINOR ==> word == n.req / 0x1_0000)
  }

  /** free acts on the pointer: a live header lies where UNALIGN looks. */
  ghost predicate Frees(majors: seq<Major>, ptr: nat, word: nat) {
    exists n :: n in Minors(majors) && n.addr == Header(ptr, word)
  }

  /** free finds the header of every live pointer. */
  lemma UnalignInverts(majors: seq<Major>, n: Minor, word: nat)
    requires n in Minors(majors) && Stored(majors, UserPtr(n), word)
    ensures Header(UserPtr(n), word) == n.addr
  {
  }

  /**
    Of the pointers that free acts on, exactly the aligned ones with a distance below them are those that
    malloc returned.
   */
  lemma FreedPointerIsOwn(n: Minor, ptr: nat, word: nat)
    requires n.addr == Header(ptr, word)
    ensures ptr == UserPtr(n) <==> ptr % ALIGNMENT == 0 && ALIGN_INFO <= word < ALIGNMENT + ALIGN_INFO
  {
  }

  /**
    The address just behind a header was never returned by malloc, and yet free acts on it unless 64 KB
    <= req_size < 384 KB.
   */
  lemma HeaderEndFrees(majors: seq<Major>, n: Minor, word: nat)
    requires BlocksOk(majors) && n in Minors(majors) && Stored(majors, n.addr + MINOR, word)
    ensures Frees(majors, n.addr + MINOR, word) <==> n.req < 0x1_0000 || n.req >= 0x6_0000
    ensures forall y :: y in Minors(majors) ==> UserPtr(y) != n.addr + MINOR
  {
    hide BlocksOk, AlignShift;
    var h := Header(n.addr + MINOR, word);
    forall y | y in Minors(majors) ensures UserPtr(y) != n.addr + MINOR && (y.addr == h ==> h == n.addr) {
      if y != n {
        MinorsApart(majors, y, n);
      }
    }
  }

  class Heap {
    var majors: seq<Major>
    var bestBet: Option<nat>
    var inuse: int
    var total: int
    var warnings: nat
    var errors: nat

    ghost predicate Valid()
      reads this
    {
      && BlocksOk(majors) && NoneEmpty(majors) && Known(majors, bestBet)
      && inuse == Sum(majors, InUse) && total == Sum(majors, BlockSize)
    }

    constructor ()
      ensures Valid() && majors == []
    {
      majors, bestBet, inuse, total, warnings, errors := [], None, 0, 0, 0, 0;
    }

    /** Cases 2 to 4 of malloc: the first gap of the block with room, or the number of gaps. */
    static method FindGap(m: Major, need: nat) returns (k: nat)
      requires MajorOk(m) && m.size - m.usage >= need
      ensures k <= |m.minors| + 1
      ensures k <= |m.minors| ==> GapHas(m, k, need)
      ensures forall j :: 0 <= j < k && j <= |m.minors| ==> !GapHas(m, j, need)
    {
      if m.minors == [] {
        return 0;
      }
      if m.minors[0].addr - m.addr - MAJOR >= need {
        assert GapStart(m, 0) <= GapEnd(m, 0);
        return 0;
      }
      k := 1;
      while k <= |m.minors|
        invariant 1 <= k <= |m.minors| + 1
        invariant forall j :: 0 <= j < k && j <= |m.minors| ==> !GapHas(m, j, need)
      {
        var min := m.minors[k - 1];
        if k == |m.minors| {
          if m.addr + m.size - min.addr - MINOR - min.size >= need {
            return;
          }
        } else if m.minors[k].addr - min.addr - MINOR - min.size >= need {
          return;
        }
        k := k + 1;
      }
    }

    /**
      The block loop of malloc up to the point where it either has a gap or asks for pages: starts
      at the best bet when that looks large enough and restarts at the root if it found nothing.
      `viaFull` tells case 5 from case 1.
     */
    method Search(need: nat) returns (mi: nat, k: nat, viaFull: bool, bestSize: nat)
      requires Valid() && majors != []
      modifies this`bestBet
      ensures Known(majors, bestBet) && mi <= |majors|
      ensures mi < |majors| ==> k <= |majors[mi].minors| && GapHas(majors[mi], k, need)
      ensures mi == |majors| <==> forall m :: m in majors ==> !Has(m, need)
      ensures viaFull ==> exists m :: m in majors && m.size - m.usage >= need
    {
      hide NoneEmpty, Sum, MajorOk, RoomyMinors;
      assert forall i :: 0 <= i < |majors| ==> MajorOk(majors[i]);
      hide BlocksOk;
      mi, k, viaFull, bestSize := 0, 0, false, 0;
      var started := false;
      if bestBet.Some? {
        var bi := IndexOfBlock(bestBet.value);
        GapWithinFree(majors[bi], 0);
        bestSize := majors[bi].size - majors[bi].usage;
        if bestSize > need {
          mi, started := bi, true;
        }
      }
      while true
        invariant mi < |majors| && Known(majors, bestBet) && !viaFull
        invariant !started ==> forall j :: 0 <= j < mi ==> !Has(majors[j], need)
        decreases started, |majors| - mi
      {
        var m := majors[mi];
        GapWithinFree(m, 0);
        var diff := m.size - m.usage;
        if bestSize < diff {
          bestBet, bestSize := Some(m.addr), diff;
        }
        if diff < need {
          TooFull(m, need);
          if mi + 1 < |majors| {
            mi := mi + 1;
          } else if started {
            mi, started := 0, false;
          } else {
            mi := mi + 1;
            return;
          }
        } else {
          k := FindGap(m, need);
          if k <= |m.minors| {
            assert Has(majors[mi], need) && majors[mi] in majors;
            return;
          }
          if mi + 1 < |majors| {
            mi := mi + 1;
          } else if started {
            mi, started := 0, false;
          } else {
            mi, viaFull := mi + 1, true;
            return;
          }
        }
      }
    }

    method IndexOfBlock(addr: nat) returns (i: nat)
      requires Known(majors, Some(addr))
      ensures i < |majors| && majors[i].addr == addr
    {
      i := 0;
      while majors[i].addr != addr
        invariant i < |majors|
        invariant forall j :: 0 <= j < i ==> majors[j].addr != addr
        decreases |majors| - i
      {
        i := i + 1;
      }
    }

    /** The heap is as malloc needs it before it writes into block `mi`, which may be new and empty. */
    ghost predicate Ready(mi: nat)
      reads this
    {
      && BlocksOk(majors) && Known(majors, bestBet)
      && (forall i :: 0 <= i < |majors| && i != mi ==> majors[i].minors != [])
      && inuse == Sum(majors, InUse) && total == Sum(majors, BlockSize)
    }

    /** Writes the new minor into gap `k` of block `mi` and aligns the pointer, whether or not there is room. */
    method Place(mi: nat, k: nat, size: nat, req: nat) returns (p: nat, ghost n: Minor)
      requires mi < |majors| && k <= |majors[mi].minors|
      modifies this`majors, this`inuse
      ensures majors == old(majors)[mi := WithMinor(old(majors)[mi], k, size, req)] && inuse == old(inuse) + size
      ensures n == Minor(GapStart(old(majors)[mi], k), size, req) && p == UserPtr(n)
      ensures Minors(majors) == old(Minors(majors)) + {n}
      ensures old(Ready(mi)) && GapHas(old(majors)[mi], k, size + MINOR) && size == req + ALIGNMENT + ALIGN_INFO ==>
        Valid() && n !in old(Minors(majors))
    {
      hide BlocksOk, Minors, MajorOk, RoomyMinors, Sum, GapHas, WithMinor, GapStart, Known;
      var m := majors[mi];
      n := Minor(GapStart(m, k), size, req);
      PlaceMinors(majors, mi, k, size, req);
      PlaceSums(majors, mi, k, size, req);
      if Ready(mi) && GapHas(m, k, size + MINOR) && size == req + ALIGNMENT + ALIGN_INFO {
        PlaceStep(majors, mi, k, size, req);
        PlaceShape(majors, bestBet, mi, k, size, req);
      }
      p := GapStart(m, k) + MINOR;
      majors := majors[mi := WithMinor(m, k, size, req)];
      inuse := inuse + size;
      p := p + AlignShift(p);
    }

    /** allocate_new_page: the new block at the end of the list. */
    method Append(addr: nat, pages: nat)
      requires pages > 0 && HookOk(Some(addr), pages, majors)
      modifies this`majors, this`total
      ensures majors == old(majors) + [NewMajor(addr, pages)] && total == old(total) + pages * PAGE_SIZE
      ensures Minors(majors) == old(Minors(majors))
      ensures old(Valid()) ==> Ready(|old(majors)|)
      ensures old(InSpace(majors)) ==> InSpace(majors)
    {
      hide BlocksOk, Minors, Sum, MajorOk, Known;
      var maj := NewMajor(addr, pages);
      NewMajorOk(addr, pages);
      AppendEmpty(majors, maj);
      if Valid() {
        AppendStep(majors, bestBet, maj);
      }
      majors := majors + [maj];
      total := total + maj.size;
    }

    /**
      malloc, for every request. `hook` and `again` are what the page hook returns the first and the
      second time; `n` is the minor that serves the request.
     */
    method Malloc(req: nat, hook: Option<nat>, again: Option<nat>) returns (r: Option<nat>, ghost n: Minor)
      requires Valid() && req < TWO32
      requires HookOk(hook, Pages32(Size32(Served(req))), majors)
      requires hook.Some? ==>
        HookOk(again, Pages32(Size32(Served(req))), majors + [NewMajor(hook.value, Pages32(Size32(Served(req))))])
      modifies this
      ensures r.None? <==>
        && (forall m :: m in old(majors) ==> !Has(m, Need32(Size32(Served(req)))))
        && (hook.None? || (old(majors) == [] && TwoBlocks(Size32(Served(req))) && again.None?))
      ensures r.Some? ==>
        Minors(majors) == old(Minors(majors)) + {n} && n.req == Served(req) && n.size == Size32(Served(req))
      ensures r.Some? ==> r.value == UserPtr(n) && r.value % ALIGNMENT == 0
      ensures r.Some? ==> (Plain(req) <==> exists m :: m in majors && m.addr <= r.value && r.value + req <= m.End())
      ensures Plain(Served(req)) ==> Valid() && (r.Some? ==> n !in old(Minors(majors)) && r.value + n.req <= n.End())
      ensures Plain(Served(req)) && (exists m :: m in old(majors) && Has(m, n.size + MINOR)) && r.Some? ==>
        |majors| == |old(majors)| && total == old(total)
      ensures r.None? && (old(majors) != [] || hook.None?) ==>
        Valid() && majors == old(majors) && inuse == old(inuse) && total == old(total)
      ensures r.None? && old(majors) == [] && hook.Some? ==>
        && majors == [NewMajor(hook.value, Pages32(Size32(Served(req))))] && !NoneEmpty(majors)
        && inuse == old(inuse) && total == old(total) + majors[0].size
      decreases Size32(req) == 0
    {
      hide BlocksOk, Minors, Sum, GapHas, Has, MajorOk, Known, Size32, Need32, Pages32, GapStart, WithMinor, UserPtr;
      n := Minor(0, 0, 0);
      var size := Size32(req);
      SizeExact(req);
      SizeExact(1);
      if size == 0 {
        warnings := warnings + 1;
        r, n := Malloc(1, hook, again);
        InSpaceOfBlocks(majors);
        PastTheEnd(majors, r, req);
        return;
      }
      var need, pages := Need32(size), Pages32(size);
      PagesExact(size);
      NeedIs(size);
      InSpaceOfBlocks(majors);
      var mi, k, viaFull, bestSize := 0, 0, true, 0;
      if majors != [] {
        mi, k, viaFull, bestSize := Search(need);
      }
      if mi == |majors| {
        if hook.None? {
          warnings := warnings + 1;
          return None, n;
        }
        Append(hook.value, pages);
        FreshGap(hook.value, pages);
        k := 0;
        if viaFull {
          var diff := majors[mi].size - majors[mi].usage;
          if bestSize < diff {
            bestBet := Some(majors[mi].addr);
            KnownAt(majors, mi);
          }
          if diff < need {
            assert TwoBlocks(size) && old(majors) == [];
            if again.None? {
              warnings := warnings + 1;
              return None, n;
            }
            Append(again.value, pages);
            FreshGap(again.value, pages);
            mi := mi + 1;
          }
        }
      }
      BlockAt(majors, mi);
      assert Plain(req) ==> Ready(mi) && GapHas(majors[mi], k, size + MINOR);
      ghost var before := majors;
      var p;
      p, n := Place(mi, k, size, req);
      PlacedWhere(before, mi, k, size, req);
      PastTheEnd(majors, Some(p), req);
      return Some(p), n;
    }

    /** free. `word` is the 16-bit word below the pointer. */
    method Free(ptr: Option<nat>, word: nat) returns (ok: bool)
      requires Valid() && (ptr.Some? ==> Stored(majors, ptr.value, word))
      modifies this
      ensures Valid()
      ensures ok <==> ptr.Some? && Frees(old(majors), ptr.value, word)
      ensures !ok ==> majors == old(majors) && inuse == old(inuse) && total == old(total) && bestBet == old(bestBet)
      ensures ok ==>
        exists n :: n in old(Minors(majors)) && n.addr == Header(ptr.value, word) && Minors(majors) == old(Minors(majors)) - {n}
      ensures forall n :: n in old(Minors(majors)) && ptr == Some(UserPtr(n)) ==>
        ok && Minors(majors) == old(Minors(majors)) - {n}
    {
      hide BlocksOk, Minors, Sum, MajorOk, RoomyMinors, NoneEmpty, WithoutMinor, UserPtr, Stored;
      if ptr.None? {
        warnings := warnings + 1;
        return false;
      }
      LivePointerHeader(majors, ptr.value, word);
      var found, mi, k := FindHeader(Header(ptr.value, word));
      if !found {
        errors := errors + 1;
        return false;
      }
      FreeStep(majors, mi, k);
      FreeSums(majors, mi, k);
      var maj := majors[mi];
      var min := maj.minors[k];
      HeaderUnique(majors, min);
      inuse := inuse - min.size;
      var left := WithoutMinor(maj, k);
      if left.minors == [] {
        FreeEmpties(majors, bestBet, mi, k);
        if bestBet == Some(maj.addr) {
          bestBet := None;
        }
        majors := RemoveAt(majors, mi);
        total := total - maj.size;
      } else {
        FreeKeepsBlock(majors, bestBet, mi, k);
        majors := majors[mi := left];
        if bestBet.Some? {
          var bi := IndexOfBlock(bestBet.value);
          if left.size - left.usage > majors[bi].size - majors[bi].usage {
            bestBet := Some(left.addr);
            assert majors[mi].addr == left.addr;
          }
        }
      }
      return true;
    }

    /** The magic test: the live header at an address, if there is one. */
    method FindHeader(header: int) returns (found: bool, mi: nat, k: nat)
      ensures found ==> mi < |majors| && k < |majors[mi].minors| && majors[mi].minors[k].addr == header
      ensures !found ==> forall n :: n in Minors(majors) ==> n.addr != header
    {
      mi, k := 0, 0;
      while mi < |majors|
        invariant mi <= |majors|
        invariant forall i, j :: 0 <= i < mi && 0 <= j < |majors[i].minors| ==> majors[i].minors[j].addr != header
      {
        k := 0;
        while k < |majors[mi].minors|
          invariant k <= |majors[mi].minors|
          invariant forall j :: 0 <= j < k ==> majors[mi].minors[j].addr != header
        {
          if majors[mi].minors[k].addr == header {
            return true, mi, k;
          }
          k := k + 1;
        }
        mi := mi + 1;
      }
      return false, 0, 0;
    }
  }

  /** A run: a heap with any block at all hands out 4 GB without asking for a page. */
  method FourGigabytes(h: Heap) returns (r: Option<nat>)
    requires h.Valid() && h.majors != []
    modifies h
    ensures r.Some? && forall m :: m in h.majors ==> !(m.addr <= r.value && r.value + 0xFFFF_FFE2 <= m.End())
  {
    assert h.majors[0] in h.majors;
    WrappedNeedAlwaysFits(h.majors[0]);
    ghost var n;
    r, n := h.Malloc(0xFFFF_FFE2, None, None);
  }

  // ---------- Where a block lies and what malloc returns ----------

  ghost predicate InSpace(majors: seq<Major>) {
    forall m :: m in majors ==> PAGE_SIZE <= m.addr && m.End() <= TWO32
  }

  lemma InSpaceOfBlocks(majors: seq<Major>)
    requires BlocksOk(majors)
    ensures InSpace(majors)
    ensures forall m :: m in majors ==> m.size - m.usage <= TWO32 - PAGE_SIZE - MAJOR
  {
    forall m | m in majors ensures m.usage >= MAJOR {
      assert MajorOk(m);
    }
  }

  lemma BlockAt(majors: seq<Major>, i: nat)
    requires i < |majors|
    ensures BlocksOk(majors) ==> MajorOk(majors[i])
  {
  }

  /** The user's pointer and, where there is room, the whole user's region lie in the block. */
  lemma PlacedWhere(majors: seq<Major>, mi: nat, k: nat, size: nat, req: nat)
    requires mi < |majors| && k <= |majors[mi].minors| && MajorOk(majors[mi]) && InSpace(majors)
    ensures var n := Minor(GapStart(majors[mi], k), size, req);
            var after := majors[mi := WithMinor(majors[mi], k, size, req)];
            && InSpace(after) && UserPtr(n) >= PAGE_SIZE && UserPtr(n) % ALIGNMENT == 0
            && (GapHas(majors[mi], k, size + MINOR) && size == req + ALIGNMENT + ALIGN_INFO ==>
                 UserPtr(n) + req <= n.End() && exists m :: m in after && m.addr <= UserPtr(n) && UserPtr(n) + req <= m.End())
  {
    hide Sum;
    var m := majors[mi];
    var m' := WithMinor(m, k, size, req);
    var after := majors[mi := m'];
    StartOfBlock(m, k);
    RestOfBlock(m, k);
    assert after[mi] == m' && m' in after && m'.addr == m.addr && m'.End() == m.End();
    assert forall x :: x in after ==> x in majors || x == m';
    assert majors[mi] in majors;
  }

  lemma NeedIs(size: nat)
    requires size < TWO32
    ensures size + MINOR < TWO32 ==> Need32(size) == size + MINOR
  {
  }

  lemma KnownAt(majors: seq<Major>, i: nat)
    requires i < |majors|
    ensures Known(majors, Some(majors[i].addr))
  {
  }

  lemma FreshGap(addr: nat, pages: nat)
    requires pages > 0 && HookOk(Some(addr), pages, [])
    ensures MajorOk(NewMajor(addr, pages))
    ensures forall need: nat :: GapHas(NewMajor(addr, pages), 0, need) <==> need + MAJOR <= pages * PAGE_SIZE
    ensures GapStart(NewMajor(addr, pages), 0) == addr + MAJOR
  {
  }

  /** A request that the sizes wrap for lies in no block, wherever it was placed. */
  lemma PastTheEnd(majors: seq<Major>, p: Option<nat>, req: nat)
    requires InSpace(majors) && (p.Some? ==> p.value >= PAGE_SIZE)
    ensures p.Some? && !Plain(req) ==> !exists m :: m in majors && m.addr <= p.value && p.value + req <= m.End()
  {
  }

  // ---------- What placing and dropping a minor does to the heap ----------

  lemma PlaceStep(majors: seq<Major>, mi: nat, k: nat, size: nat, req: nat)
    requires mi < |majors| && k <= |majors[mi].minors| && GapHas(majors[mi], k, size + MINOR)
    requires size == req + ALIGNMENT + ALIGN_INFO && BlocksOk(majors)
    ensures BlocksOk(majors[mi := WithMinor(majors[mi], k, size, req)])
    ensures Minor(GapStart(majors[mi], k), size, req) !in Minors(majors)
  {
    hide Sum, UserPtr, AlignShift, GapHas;
    var m := majors[mi];
    PlaceInGap(m, k, size, req);
    NewMinorApart(majors, mi, k, size, req);
    PlaceRoomy(m, k, size, req);
    hide MajorOk, RoomyMinors;
  }

  lemma PlaceRoomy(m: Major, k: nat, size: nat, req: nat)
    requires k <= |m.minors| && RoomyMinors(m) && size == req + ALIGNMENT + ALIGN_INFO
    ensures RoomyMinors(WithMinor(m, k, size, req))
  {
  }

  lemma PlaceMinors(majors: seq<Major>, mi: nat, k: nat, size: nat, req: nat)
    requires mi < |majors| && k <= |majors[mi].minors|
    ensures var n := Minor(GapStart(majors[mi], k), size, req);
            Minors(majors[mi := WithMinor(majors[mi], k, size, req)]) == Minors(majors) + {n}
  {
    var m := majors[mi];
    var n := Minor(GapStart(m, k), size, req);
    var m' := WithMinor(m, k, size, req);
    var majors' := majors[mi := m'];
    InsertContents(m.minors, k, n);
    forall y ensures y in Minors(majors') <==> y in Minors(majors) || y == n {
      if y in Minors(majors) {
        var x :| x in majors && y in x.minors;
        var i :| 0 <= i < |majors| && majors[i] == x;
        assert y in majors'[i].minors && majors'[i] in majors';
      }
      if y == n {
        assert majors'[mi] in majors' && n in majors'[mi].minors;
      }
      if y in Minors(majors') {
        var x :| x in majors' && y in x.minors;
        var i :| 0 <= i < |majors'| && majors'[i] == x;
        assert majors[i] in majors;
      }
    }
  }

  /** The new minor shares no address, and hence no user pointer, with a live one. */
  lemma NewMinorApart(majors: seq<Major>, mi: nat, k: nat, size: nat, req: nat)
    requires mi < |majors| && k <= |majors[mi].minors| && GapHas(majors[mi], k, size + MINOR)
    requires size == req + ALIGNMENT + ALIGN_INFO && BlocksOk(majors)
    ensures forall y :: y in Minors(majors) ==> UserPtr(y) != UserPtr(Minor(GapStart(majors[mi], k), size, req))
  {
    hide BlocksOk, GapHas, UserPtr;
    forall y | y in Minors(majors) ensures UserPtr(y) != UserPtr(Minor(GapStart(majors[mi], k), size, req)) {
      var x :| x in majors && y in x.minors;
      var i :| 0 <= i < |majors| && majors[i] == x;
      var j :| 0 <= j < |x.minors| && x.minors[j] == y;
      NewMinorApartFrom(majors, mi, k, size, req, i, j);
    }
  }

  lemma NewMinorApartFrom(majors: seq<Major>, mi: nat, k: nat, size: nat, req: nat, i: nat, j: nat)
    requires mi < |majors| && k <= |majors[mi].minors| && GapHas(majors[mi], k, size + MINOR)
    requires size == req + ALIGNMENT + ALIGN_INFO && BlocksOk(majors)
    requires i < |majors| && j < |majors[i].minors|
    ensures UserPtr(majors[i].minors[j]) != UserPtr(Minor(GapStart(majors[mi], k), size, req))
  {
    hide Sum, UserPtr, AlignShift;
    var m, x := majors[mi], majors[i];
    var n, y := Minor(GapStart(m, k), size, req), x.minors[j];
    var m' := WithMinor(m, k, size, req);
    PlaceInGap(m, k, size, req);
    assert y.size >= ALIGNMENT + ALIGN_INFO by { assert RoomyMinors(x); }
    assert Apart(x, m) || i == mi;
    assert MajorOk(x);
    hide BlocksOk, RoomyMinors, GapHas, GapStart;
    MinorInside(m', k);
    if i == mi {
      if j < k { MinorsOrdered(m', j, k); } else { MinorsOrdered(m', k, j + 1); }
    } else {
      MinorInside(x, j);
    }
    UserPtrInjective(y, n);
  }

  lemma PlaceSums(majors: seq<Major>, mi: nat, k: nat, size: nat, req: nat)
    requires mi < |majors| && k <= |majors[mi].minors|
    ensures var majors' := majors[mi := WithMinor(majors[mi], k, size, req)];
            && Sum(majors', InUse) == Sum(majors, InUse) + size
            && Sum(majors', BlockSize) == Sum(majors, BlockSize)
  {
    var m := majors[mi];
    SumInsert(m.minors, SizeOf, k, Minor(GapStart(m, k), size, req));
    SumUpdate(majors, InUse, mi, WithMinor(m, k, size, req));
    SumUpdate(majors, BlockSize, mi, WithMinor(m, k, size, req));
  }

  lemma PlaceShape(majors: seq<Major>, bet: Option<nat>, mi: nat, k: nat, size: nat, req: nat)
    requires mi < |majors| && k <= |majors[mi].minors| && Known(majors, bet)
    requires forall i :: 0 <= i < |majors| && i != mi ==> majors[i].minors != []
    ensures NoneEmpty(majors[mi := WithMinor(majors[mi], k, size, req)])
    ensures Known(majors[mi := WithMinor(majors[mi], k, size, req)], bet)
  {
    if bet.Some? {
      var i :| 0 <= i < |majors| && majors[i].addr == bet.value;
      assert majors[mi := WithMinor(majors[mi], k, size, req)][i].addr == bet.value;
    }
  }

  lemma AppendStep(majors: seq<Major>, bet: Option<nat>, maj: Major)
    requires BlocksOk(majors) && Known(majors, bet) && MajorOk(maj) && maj.minors == []
    requires forall m :: m in majors ==> Apart(maj, m)
    ensures BlocksOk(majors + [maj]) && Known(majors + [maj], bet)
    ensures Sum(majors + [maj], InUse) == Sum(majors, InUse)
    ensures Sum(majors + [maj], BlockSize) == Sum(majors, BlockSize) + maj.size
  {
    assert InUse(maj) == 0 && RoomyMinors(maj);
    hide Sum, MajorOk, RoomyMinors;
    SumAppend(majors, InUse, maj);
    SumAppend(majors, BlockSize, maj);
    AppendBlocks(majors, maj);
    hide BlocksOk;
    if bet.Some? {
      var i :| 0 <= i < |majors| && majors[i].addr == bet.value;
      assert (majors + [maj])[i].addr == bet.value;
    }
  }

  lemma AppendBlocks(majors: seq<Major>, maj: Major)
    requires BlocksOk(majors) && MajorOk(maj) && RoomyMinors(maj) && forall m :: m in majors ==> Apart(maj, m)
    ensures BlocksOk(majors + [maj])
  {
    hide MajorOk, RoomyMinors;
    var all := majors + [maj];
    forall i, j | 0 <= i < j < |all| ensures Apart(all[i], all[j]) {
      assert all[i] in majors;
    }
  }

  lemma AppendEmpty(majors: seq<Major>, maj: Major)
    requires maj.minors == []
    ensures Minors(majors + [maj]) == Minors(majors)
  {
    assert forall x :: x in majors + [maj] <==> x in majors || x == maj;
  }

  lemma FreeStep(majors: seq<Major>, mi: nat, k: nat)
    requires mi < |majors| && k < |majors[mi].minors| && BlocksOk(majors)
    ensures majors[mi].usage >= majors[mi].minors[k].size + MINOR
    ensures var n := majors[mi].minors[k];
            var majors' := majors[mi := WithoutMinor(majors[mi], k)];
            BlocksOk(majors') && n in Minors(majors) && Minors(majors') == Minors(majors) - {n}
  {
    hide Sum, UserPtr;
    var m := majors[mi];
    var n := m.minors[k];
    DropMinor(m, k);
    var m' := WithoutMinor(m, k);
    var majors' := majors[mi := m'];
    RemovedMinors(m, k);
    assert majors[mi] in majors && n in m.minors;
    forall y ensures y in Minors(majors') <==> y in Minors(majors) && y != n {
      FreedMinors(majors, mi, k, y);
    }
  }

  lemma RemovedMinors(m: Major, k: nat)
    requires k < |m.minors|
    ensures forall j :: 0 <= j < |RemoveAt(m.minors, k)| ==> RemoveAt(m.minors, k)[j] in m.minors
  {
  }

  lemma FreedMinors(majors: seq<Major>, mi: nat, k: nat, y: Minor)
    requires mi < |majors| && k < |majors[mi].minors| && BlocksOk(majors)
    requires majors[mi].usage >= majors[mi].minors[k].size + MINOR
    ensures y in Minors(majors[mi := WithoutMinor(majors[mi], k)]) <==> y in Minors(majors) && y != majors[mi].minors[k]
  {
    var m := majors[mi];
    var majors' := majors[mi := WithoutMinor(m, k)];
    if y in Minors(majors') {
      FreedMinorsKept(majors, mi, k, y);
    }
    if y in Minors(majors) && y != m.minors[k] {
      hide BlocksOk;
      var x :| x in majors && y in x.minors;
      var i :| 0 <= i < |majors| && majors[i] == x;
      var j :| 0 <= j < |x.minors| && x.minors[j] == y;
      assert i == mi ==> y == majors'[i].minors[if j < k then j else j - 1];
      assert majors'[i] in majors' && y in majors'[i].minors;
    }
  }

  lemma FreedMinorsKept(majors: seq<Major>, mi: nat, k: nat, y: Minor)
    requires mi < |majors| && k < |majors[mi].minors| && BlocksOk(majors)
    requires majors[mi].usage >= majors[mi].minors[k].size + MINOR
    requires y in Minors(majors[mi := WithoutMinor(majors[mi], k)])
    ensures y in Minors(majors) && y != majors[mi].minors[k]
  {
    hide BlocksOk, UserPtr;
    var majors' := majors[mi := WithoutMinor(majors[mi], k)];
    var x :| x in majors' && y in x.minors;
    var i :| 0 <= i < |majors'| && majors'[i] == x;
    var j :| 0 <= j < |x.minors| && x.minors[j] == y;
    var j' := if i == mi && j >= k then j + 1 else j;
    assert majors[i].minors[j'] == y;
    assert majors[i] in majors && y in majors[i].minors;
    PtrsDiffer(majors, i, j', mi, k);
  }

  /** Two different live minors have different user pointers. */
  lemma PtrsDiffer(majors: seq<Major>, i: nat, j: nat, i': nat, j': nat)
    requires BlocksOk(majors) && i < |majors| && i' < |majors| && (i, j) != (i', j')
    requires j < |majors[i].minors| && j' < |majors[i'].minors|
    ensures UserPtr(majors[i].minors[j]) != UserPtr(majors[i'].minors[j'])
    ensures majors[i].minors[j].End() <= majors[i'].minors[j'].addr || majors[i'].minors[j'].End() <= majors[i].minors[j].addr
  {
    hide Sum;
    var a, b := majors[i].minors[j], majors[i'].minors[j'];
    if i == i' {
      if j < j' { MinorsOrdered(majors[i], j, j'); } else { MinorsOrdered(majors[i], j', j); }
    } else {
      MinorInside(majors[i], j);
      MinorInside(majors[i'], j');
      assert if i < i' then Apart(majors[i], majors[i']) else Apart(majors[i'], majors[i]);
    }
    UserPtrInjective(a, b);
  }

  /** The regions handed to the user never overlap. */
  lemma UserRegionsDisjoint(majors: seq<Major>, a: Minor, b: Minor)
    requires BlocksOk(majors) && a in Minors(majors) && b in Minors(majors) && a != b
    ensures UserPtr(a) + a.req <= UserPtr(b) || UserPtr(b) + b.req <= UserPtr(a)
  {
    MinorsApart(majors, a, b);
    hide MajorOk;
    assert a.size == a.req + ALIGNMENT + ALIGN_INFO && b.size == b.req + ALIGNMENT + ALIGN_INFO;
  }

  lemma FreeSums(majors: seq<Major>, mi: nat, k: nat)
    requires mi < |majors| && k < |majors[mi].minors| && BlocksOk(majors)
    requires majors[mi].usage >= majors[mi].minors[k].size + MINOR
    ensures var left := WithoutMinor(majors[mi], k);
            && Sum(majors[mi := left], InUse) == Sum(majors, InUse) - majors[mi].minors[k].size
            && Sum(majors[mi := left], BlockSize) == Sum(majors, BlockSize)
            && Sum(RemoveAt(majors, mi), BlockSize) == Sum(majors, BlockSize) - majors[mi].size
            && (left.minors == [] ==> Sum(RemoveAt(majors, mi), InUse) == Sum(majors, InUse) - majors[mi].minors[k].size)
            && left.addr == majors[mi].addr && left.size == majors[mi].size
  {
    var m := majors[mi];
    var left := WithoutMinor(m, k);
    SumRemove(m.minors, SizeOf, k);
    SumUpdate(majors, InUse, mi, left);
    SumUpdate(majors, BlockSize, mi, left);
    SumRemove(majors, InUse, mi);
    SumRemove(majors, BlockSize, mi);
  }

  /** Unlinking a block whose last minor went away. */
  lemma FreeEmpties(majors: seq<Major>, bet: Option<nat>, mi: nat, k: nat)
    requires mi < |majors| && k < |majors[mi].minors| && BlocksOk(majors) && NoneEmpty(majors) && Known(majors, bet)
    requires majors[mi].usage >= majors[mi].minors[k].size + MINOR && WithoutMinor(majors[mi], k).minors == []
    requires var majors' := majors[mi := WithoutMinor(majors[mi], k)]; BlocksOk(majors')
    ensures var rest := RemoveAt(majors, mi);
            && BlocksOk(rest) && NoneEmpty(rest)
            && Minors(rest) == Minors(majors[mi := WithoutMinor(majors[mi], k)])
            && Known(rest, if bet == Some(majors[mi].addr) then None else bet)
  {
    hide MajorOk, RoomyMinors, Minors, WithoutMinor;
    var majors' := majors[mi := WithoutMinor(majors[mi], k)];
    var rest := RemoveAt(majors, mi);
    EmptyBlockIrrelevant(majors', mi);
    assert RemoveAt(majors', mi) == rest;
    if bet.Some? && bet.value != majors[mi].addr {
      var i :| 0 <= i < |majors| && majors[i].addr == bet.value;
      assert rest[if i < mi then i else i - 1].addr == bet.value;
    }
  }

  lemma EmptyBlockIrrelevant(majors: seq<Major>, mi: nat)
    requires mi < |majors| && majors[mi].minors == []
    ensures Minors(RemoveAt(majors, mi)) == Minors(majors)
  {
    hide UserPtr, AlignShift;
    var rest := RemoveAt(majors, mi);
    forall x | x in rest ensures x in majors {
      var i :| 0 <= i < |rest| && rest[i] == x;
      assert x == majors[if i < mi then i else i + 1];
    }
    forall x | x in majors && x.minors != [] ensures x in rest {
      var i :| 0 <= i < |majors| && majors[i] == x;
      assert rest[if i < mi then i else i - 1] == x;
    }
  }

  lemma FreeKeepsBlock(majors: seq<Major>, bet: Option<nat>, mi: nat, k: nat)
    requires mi < |majors| && k < |majors[mi].minors| && NoneEmpty(majors) && Known(majors, bet)
    requires majors[mi].usage >= majors[mi].minors[k].size + MINOR && WithoutMinor(majors[mi], k).minors != []
    ensures var majors' := majors[mi := WithoutMinor(majors[mi], k)]; NoneEmpty(majors') && Known(majors', bet)
  {
    if bet.Some? {
      var i :| 0 <= i < |majors| && majors[i].addr == bet.value;
      assert majors[mi := WithoutMinor(majors[mi], k)][i].addr == bet.value;
    }
  }

  /** Case 1 is sound: a block with too little free space has no fitting gap. */
  lemma TooFull(m: Major, need: nat)
    requires MajorOk(m) && m.size - m.usage < need
    ensures !Has(m, need)
  {
    forall k | 0 <= k <= |m.minors| ensures !GapHas(m, k, need) {
      GapWithinFree(m, k);
    }
  }

  /** Two different live minors share no address. */
  lemma MinorsApart(majors: seq<Major>, a: Minor, b: Minor)
    requires BlocksOk(majors) && a in Minors(majors) && b in Minors(majors) && a != b
    ensures a.End() <= b.addr || b.End() <= a.addr
    ensures a.size >= ALIGNMENT + ALIGN_INFO && b.size >= ALIGNMENT + ALIGN_INFO
  {
    hide Sum, MajorOk;
    var x :| x in majors && a in x.minors;
    var y :| y in majors && b in y.minors;
    var i :| 0 <= i < |majors| && majors[i] == x;
    var j :| 0 <= j < |x.minors| && x.minors[j] == a;
    var i' :| 0 <= i' < |majors| && majors[i'] == y;
    var j' :| 0 <= j' < |y.minors| && y.minors[j'] == b;
    PtrsDiffer(majors, i, j, i', j');
  }

  /** An address is the header of one live minor at most. */
  lemma HeaderUnique(majors: seq<Major>, n: Minor)
    requires BlocksOk(majors) && n in Minors(majors)
    ensures forall y :: y in Minors(majors) && y.addr == n.addr ==> y == n
  {
    hide BlocksOk, Minors;
    forall y | y in Minors(majors) && y != n ensures y.addr != n.addr {
      MinorsApart(majors, y, n);
    }
  }

  lemma LivePointerHeader(majors: seq<Major>, ptr: nat, word: nat)
    requires Stored(majors, ptr, word)
    ensures forall n :: n in Minors(majors) && ptr == UserPtr(n) ==> n.addr == Header(ptr, word)
  {
    hide Minors;
  }
}
