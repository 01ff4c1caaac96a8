/**
  The allocator object of kernel/src/arb/arb.c: arb_add_range, arb_alloc, arb_reserve, arb_free
  and arb_size over the tag records, the tag list, the free lists and the lookup table.
 */
module Arb {
  import opened Arith
  import opened Bits
  import opened Seqs
  import opened ArbGeometry
  import opened ArbViews
  import opened ArbSteps
  import opened ArbRaw

  /** The range [a, a+n) meets no live allocation. */
  ghost predicate ClearOf(live: set<(nat, nat)>, a: nat, n: nat) {
    forall p :: p in live ==> p.0 + p.1 <= a || a + n <= p.0
  }

  /** Some free tag holds [a, a+n). */
  ghost predicate FreeSpace(bt: map<TagId, Tag>, a: nat, n: nat) {
    exists id :: id in bt && !bt[id].busy && bt[id].start <= a && a + n <= bt[id].End()
  }

  /** Some free tag has room for `n`. */
  ghost predicate CanHold(bt: map<TagId, Tag>, n: nat) {
    exists id :: id in bt && !bt[id].busy && bt[id].size >= n
  }

  /** Live allocations never overlap. */
  lemma LiveDisjoint(s: State, units: nat, p: (nat, nat), q: (nat, nat))
    requires Agree(s, units, {}, {}) && p in Live(s.bt) && q in Live(s.bt) && p != q
    ensures p.0 + p.1 <= q.0 || q.0 + q.1 <= p.0
  {
    var x :| x in s.bt && s.bt[x].busy && p == (s.bt[x].start, s.bt[x].size);
    var y :| y in s.bt && s.bt[y].busy && q == (s.bt[y].start, s.bt[y].size);
    assert Apart(s.bt[x], s.bt[y]);
  }

  /** Free space is clear of every live allocation. */
  lemma FreeSpaceIsClear(s: State, units: nat, a: nat, n: nat)
    requires Agree(s, units, {}, {}) && FreeSpace(s.bt, a, n)
    ensures ClearOf(Live(s.bt), a, n)
  {
    hide ListsAgree, Coalesced, Lookup, Used, Sorted, Complete, Tiled;
    var id :| id in s.bt && !s.bt[id].busy && s.bt[id].start <= a && a + n <= s.bt[id].End();
    forall p | p in Live(s.bt) ensures p.0 + p.1 <= a || a + n <= p.0 {
      var x :| x in s.bt && s.bt[x].busy && p == (s.bt[x].start, s.bt[x].size);
      assert Apart(s.bt[x], s.bt[id]);
    }
  }

  /**
    arb_reserve picks the covering tag without asking whether it is free: the range it hands out
    is clear of the live allocations exactly when that tag is free.
   */
  lemma CoveringTagDecides(s: State, units: nat, id: TagId, a: nat, n: nat)
    requires Agree(s, units, {}, {}) && id in s.bt && n > 0
    requires s.bt[id].start <= a && a + n <= s.bt[id].End()
    ensures ClearOf(Live(s.bt), a, n) <==> !s.bt[id].busy
  {
    if s.bt[id].busy {
      assert (s.bt[id].start, s.bt[id].size) in Live(s.bt);
    } else {
      FreeSpaceIsClear(s, units, a, n);
    }
  }

  /** The test of arb_reserve, in 32-bit arithmetic. */
  predicate Passes(t: Tag, res: nat, size: nat) { t.start <= res && t.End() >= Sum32(res, size) }

  /** The tag is free and holds a whole positive number of units at the position, on one of its own units. */
  predicate FitsAt(t: Tag, res: nat, size: nat, units: nat)
    requires units > 0
  {
    && !t.busy && 0 < size && size % units == 0 && res + size < TWO32
    && t.start <= res && res + size <= t.End() && (res - t.start) % units == 0
  }

  /** A positive whole number of units, smaller than the tag, is cut off a free tag. */
  predicate CutsUnits(t: Tag, n: nat, units: nat)
    requires units > 0
  {
    !t.busy && 0 < n < t.size && n % units == 0 && t.End() < TWO32
  }

  /** The tag is free and ends with a whole positive number of units from the position on. */
  predicate FitsRight(t: Tag, res: nat, size: nat, units: nat)
    requires units > 0
  {
    !t.busy && 0 < size && size % units == 0 && t.End() == res + size < TWO32
  }

  /** Some tag, free or not, covers [a, a+n). */
  ghost predicate CoveredBy(bt: map<TagId, Tag>, a: nat, n: nat) {
    exists id :: id in bt && bt[id].start <= a && a + n <= bt[id].End()
  }

  /** Some free tag covers [a, a+n), and `a` is a whole number of units into it. */
  ghost predicate FreeAt(bt: map<TagId, Tag>, a: nat, n: nat, units: nat)
    requires units > 0
  {
    exists id :: id in bt && !bt[id].busy && bt[id].start <= a && a + n <= bt[id].End() &&
      (a - bt[id].start) % units == 0
  }

  /** Only one tag covers a range. */
  lemma CoveringIsUnique(s: State, units: nat, x: TagId, y: TagId, a: nat, n: nat)
    requires Agree(s, units, {}, {}) && x in s.bt && y in s.bt && n > 0
    requires s.bt[x].start <= a && a + n <= s.bt[x].End() && s.bt[y].start <= a && a + n <= s.bt[y].End()
    ensures x == y
  {
    hide ListsAgree, Coalesced, Lookup, Used, Sorted, Complete, Tiled;
    assert x == y || Apart(s.bt[x], s.bt[y]);
  }

  /** Spans end in the 32-bit address space. */
  ghost predicate Narrow(spans: seq<Span>) { forall sp :: sp in spans ==> sp.End() < TWO32 }

  lemma NarrowTags(s: State, units: nat)
    requires Agree(s, units, {}, {}) && Narrow(s.spans)
    ensures forall id :: id in s.bt ==> s.bt[id].End() < TWO32
  {
    hide ListsAgree, Coalesced, Lookup, Used, Sorted, Complete, Disjoint;
    forall id | id in s.bt ensures s.bt[id].End() < TWO32 {
      assert Within(s.bt[id], s.spans, units);
    }
  }

  /** Entry `i` of the list is its first free tag. */
  ghost predicate FirstFree(bt: map<TagId, Tag>, tags: seq<TagId>, i: int) {
    && 0 <= i < |tags| && tags[i] in bt && !bt[tags[i]].busy
    && forall j :: 0 <= j < i && tags[j] in bt ==> bt[tags[j]].busy
  }

  /** The tags after `n` was granted from the right end of free tag `id`. */
  function GrantTags(bt: map<TagId, Tag>, id: TagId, n: nat, tmp: Option<TagId>): map<TagId, Tag>
    requires id in bt && n <= bt[id].size
  {
    if bt[id].size == n || tmp.None? then bt[id := bt[id].(busy := true)]
    else SplitTags(bt, id, n, tmp.value)[tmp.value := Tag(bt[id].End() - n, n, true, -1)]
  }

  /** The grant of `n` at `a` was cut off the right end of free tag `id`, and no other range changed. */
  ghost predicate GrantedFrom(bt: map<TagId, Tag>, bt': map<TagId, Tag>, id: TagId, n: nat, tmp: Option<TagId>,
                              a: int) {
    id in bt && !bt[id].busy && n <= bt[id].size && a == bt[id].End() - n && SameRanges(GrantTags(bt, id, n, tmp), bt')
  }

  /** A grant at `a` is handed out if and only if some span holds it. */
  ghost predicate WrapOutcome(r: Grant, a: int, spans: seq<Span>) {
    && (r.Granted? <==> exists k :: 0 <= k < |spans| && spans[k].Covers(a))
    && (r.Granted? ==> r.addr == a)
  }

  /** The grant of `n` comes from the first free tag. */
  ghost predicate FromFirstFree(r: Grant, bt: map<TagId, Tag>, tags: seq<TagId>, n: nat, spans: seq<Span>) {
    exists i :: FirstFree(bt, tags, i) && WrapOutcome(r, bt[tags[i]].End() - n, spans)
  }

  /** What arb_alloc comes to; a fault is the use of a NULL pointer. */
  datatype Grant = Granted(addr: nat) | NoMem | Fault

  class Allocator {
    const units: nat
    var bt: map<TagId, Tag>
    var tags: seq<TagId>
    var spans: seq<Span>
    var free: seq<seq<TagId>>
    var hash: map<nat, TagId>
    var usage: int

    ghost function Model(): State
      reads this
    {
      State(bt, tags, spans, free, hash, usage)
    }

    ghost predicate Valid()
      reads this
    {
      Agree(Model(), units, {}, {}) && Narrow(spans)
    }

    /** arb_create, when its allocations succeed: enough free lists for every size up to `cacheMax`. */
    constructor (units: nat, cacheMax: nat)
      requires units > 0
      ensures Valid() && this.units == units && bt == map[] && spans == []
      ensures forall n: nat :: 0 < n <= cacheMax ==> HighBit(UnitsIn(n, units)) < |free|
    {
      hide HighBit;
      this.units := units;
      bt, tags, spans, hash, usage := map[], [], [], map[], 0;
      free := seq(HighBit(UnitsIn(cacheMax, units)) + 1, _ => []);
      new;
      forall n: nat | 0 < n <= cacheMax ensures HighBit(UnitsIn(n, units)) < |free| {
        UnitsMonotone(n, cacheMax, units);
        HighBitMonotone(UnitsIn(n, units), UnitsIn(cacheMax, units));
      }
    }

    method IndexOf(id: TagId) returns (i: nat)
      requires units > 0 && Geometry(bt, tags, spans, units) && id in bt
      ensures i < |tags| && tags[i] == id && Sorted(bt, tags)
    {
      assert Has(tags, id);
      i := Find(tags, id);
    }

    /** rem_freelist. */
    method RemFreelist(id: TagId, ghost held: set<TagId>, ghost seams: set<int>)
      requires id in bt && (Agree(Model(), units, held, seams) || InRange(bt, free))
      modifies this`free, this`bt
      ensures old(Agree(Model(), units, held, seams)) ==> Agree(Model(), units, held + {id}, seams)
      ensures InRange(bt, free) && SameRanges(old(bt), bt) && Live(bt) == old(Live(bt))
    {
      hide Agree, SameRanges, Live, InRange;
      if Agree(Model(), units, held, seams) {
        UnlinkStep(Model(), units, held, seams, id);
        AgreeRaw(Model(), units, held, seams);
      }
      UnlinkRaw(bt, free, id);
      FlInRange(bt, free, id);
      var k := bt[id].fl;
      if k == -1 {
        return;
      }
      free := free[k := Without(free[k], id)];
      bt := bt[id := bt[id].(fl := -1)];
    }

    /** add_freelist. */
    method AddFreelist(id: TagId, ghost held: set<TagId>, ghost seams: set<int>)
      requires units > 0 && id in bt
      requires ((Agree(Model(), units, held, seams) && id in held && !bt[id].busy) || InRange(bt, free))
      modifies this`free, this`bt
      ensures old(Agree(Model(), units, held, seams) && id in held && !bt[id].busy) ==>
        Agree(Model(), units, held - {id}, seams)
      ensures InRange(bt, free) && SameRanges(old(bt), bt) && Live(bt) == old(Live(bt))
    {
      hide Agree, SameRanges, Live, HighBit, InRange;
      if Agree(Model(), units, held, seams) {
        AgreeRaw(Model(), units, held, seams);
        if id in held && !bt[id].busy {
          LinkStep(Model(), units, held, seams, id);
        }
      }
      LinkRaw(bt, free, units, id);
      var pos := HighBit(UnitsIn(bt[id].size, units));
      if pos < 0 || pos >= |free| {
        return;
      }
      free := free[pos := [id] + free[pos]];
      bt := bt[id := bt[id].(fl := pos)];
    }

    /**
      arb_al_splittag: cuts `n` off the right end of a tag, in 32-bit arithmetic. The new tag is free
      and held off the free lists. `tmp` is the record that kmem_cache_alloc supplies. On a free tag and
      a smaller number of units all views go on agreeing; on any larger tag the list order does.
     */
    method SplitTag(id: TagId, n: nat, tmp: TagId, ghost seams: set<int>)
      requires units > 0 && id in bt && tmp !in bt && Has(tags, id)
      requires Agree(Model(), units, {}, seams) || InRange(bt, free)
      modifies this`free, this`bt, this`tags
      ensures SameRanges(Split32(old(bt), id, n, tmp), bt) && InRange(bt, free)
      ensures forall x :: Has(old(tags), x) ==> Has(tags, x)
      ensures old(Listed(bt, tags)) && 0 < n < old(bt[id]).size && old(bt[id]).End() < TWO32 ==>
        Listed(bt, tags) && Used(bt, tags) == old(Used(bt, tags)) - (if old(bt[id]).busy then n else 0)
      ensures old(Agree(Model(), units, {}, seams) && CutsUnits(bt[id], n, units)) ==>
        Agree(Model(), units, {tmp}, seams + {old(bt[id].End()) - n}) && Live(bt) == old(Live(bt))
    {
      hide Geometry, Sorted, ListsAgree, Coalesced, Lookup, Used, Live, SameRanges, SplitTags, Split32, InsertAt;
      hide InRange, Listed;
      ghost var fits := 0 < n < bt[id].size && bt[id].End() < TWO32;
      ghost var good := fits && Agree(Model(), units, {}, seams) && !bt[id].busy && n % units == 0;
      ghost var listed := fits && Listed(bt, tags);
      if Agree(Model(), units, {}, seams) {
        AgreeRaw(Model(), units, {}, seams);
      }
      RemFreelist(id, {}, seams);
      ghost var mid := bt;
      SameRangesAt(old(bt), mid, id);
      SameRangesAt(old(bt), mid, tmp);
      var i := Find(tags, id);
      assert {} + {id} == {id};
      InsertKeeps(tags, i + 1, tmp);
      if fits {
        Split32Exact(mid, id, n, tmp);
      }
      if listed {
        RelabelRaw(old(bt), mid, tags);
        ListedAt(bt, tags);
        SplitRaw(bt, tags, i, n, tmp);
      }
      if good {
        AgreeRaw(Model(), units, {id}, seams);
        ListedAt(bt, tags);
        SplitStep(Model(), units, seams, i, n, tmp);
      }
      Split32InRange(bt, free, id, n, tmp);
      Split32Facts(mid, id, n, tmp);
      bt := Split32(bt, id, n, tmp);
      tags := InsertAt(tags, i + 1, tmp);
      ghost var cut := bt;
      Split32SameRanges(old(bt), mid, id, n, tmp);
      AddFreelist(id, {id, tmp}, seams + {old(bt[id].End()) - n});
      SameRangesTransitive(Split32(old(bt), id, n, tmp), cut, bt);
      if listed {
        RelabelRaw(cut, bt, tags);
      }
      assert {id, tmp} - {id} == {tmp};
    }

    /** arb_getspan: the index of the span holding `res`, or the number of spans. */
    method GetSpan(res: nat) returns (k: nat)
      ensures k <= |spans|
      ensures k < |spans| ==> spans[k].Covers(res)
      ensures k == |spans| ==> forall j :: 0 <= j < |spans| ==> !spans[j].Covers(res)
    {
      k := 0;
      while k < |spans| && !(res >= spans[k].start && res < spans[k].start + spans[k].size)
        invariant k <= |spans|
        invariant forall j :: 0 <= j < k ==> !spans[j].Covers(res)
      {
        k := k + 1;
      }
    }

    /**
      The tail shared by arb_alloc and arb_reserve: mark the tag and record it in its span's table. Not
      ok: no span holds it.
     */
    method MarkBusy(id: TagId, ghost seams: set<int>) returns (ok: bool)
      requires id in bt && units > 0
      modifies this`bt, this`hash, this`usage
      ensures bt == old(bt)[id := old(bt)[id].(busy := true)]
      ensures ok <==> exists k :: 0 <= k < |spans| && spans[k].Covers(bt[id].start)
      ensures ok ==> usage == old(usage) + bt[id].size
      ensures ok ==>
        exists k :: 0 <= k < |spans| && spans[k].Covers(bt[id].start) &&
          hash == old(hash)[SlotOf(spans[k], bt[id].start, units) := id]
      ensures old(Agree(Model(), units, {id}, seams) && !bt[id].busy && seams <= {bt[id].start as int, bt[id].End()}) ==>
        ok && Agree(Model(), units, {}, {}) && Live(bt) == old(Live(bt)) + {old((bt[id].start, bt[id].size))}
    {
      hide ListsAgree, Coalesced, Used, Live, Lookup, Sorted, Complete, Disjoint;
      ghost var good := Agree(Model(), units, {id}, seams) && !bt[id].busy && seams <= {bt[id].start as int, bt[id].End()};
      var a, n := bt[id].start, bt[id].size;
      var k := GetSpan(a);
      if good {
        BusyStep(Model(), units, seams, id);
        StartSlot(bt, tags, spans, units, id, k);
      }
      hide Geometry;
      bt := bt[id := bt[id].(busy := true)];
      if k == |spans| {
        return false;
      }
      hash := hash[SlotOf(spans[k], a, units) := id];
      usage := usage + n;
      return true;
    }

    /** arb_al_freesearch: a fitting tag from the one free list that is searched. */
    method FreeSearch(need: nat, mode: Mode) returns (r: Option<TagId>)
      requires Valid()
      ensures r.Some? ==> r.value in bt && !bt[r.value].busy && bt[r.value].size >= need
      ensures UnitsIn(need, units) == 0 ==> r.None?
      ensures mode == Instant && units > 0 ==>
        var pos := HighBit(UnitsIn(need, units));
        (pos >= 0 && pos + 1 < |free| && free[pos + 1] != [] ==> r == Some(free[pos + 1][0]))
    {
      hide Geometry, Coalesced, Used, Lookup, HighBit;
      var pos := HighBit(UnitsIn(need, units));
      if pos < 0 || pos >= |free| {
        return None;
      }
      if mode == Instant {
        pos := pos + 1;
        if pos >= |free| {
          return None;
        }
      }
      ghost var low := HighBit(UnitsIn(need, units));
      var l := free[pos];
      var i := 0;
      while i < |l|
        invariant i <= |l|
        invariant mode == Instant ==> i == 0
      {
        assert Has(free[pos], l[i]);
        if mode == Instant {
          HigherListFits(bt[l[i]], units, need);
        }
        if bt[l[i]].size >= need {
          return Some(l[i]);
        }
        i := i + 1;
      }
      return None;
    }

    /** The scan of arb_alloc: a free tag of at least `size`, or the number of tags. */
    method FindRoom(size: nat, mode: Mode) returns (i: nat)
      requires Valid() && units > 0
      ensures i <= |tags| && (i == |tags| <==> !CanHold(bt, size))
      ensures i < |tags| ==> tags[i] in bt && !bt[tags[i]].busy && bt[tags[i]].size >= size
      ensures i < |tags| && size < units ==> FirstFree(bt, tags, i)
    {
      hide Geometry, ListsAgree, Coalesced, Used, Lookup;
      if size < units {
        TagsHoldUnits(bt, tags, spans, units);
        NoUnits(size, units);
      }
      i := 0;
      if mode != Search {
        var f := FreeSearch(size, mode);
        if f.Some? {
          i := IndexOf(f.value);
        }
      }
      ghost var first := i;
      SortedTags(bt, tags, spans, units);
      while i < |tags| && (bt[tags[i]].busy || bt[tags[i]].size < size)
        invariant first <= i <= |tags|
        invariant first > 0 ==> i == first < |tags| && !bt[tags[i]].busy && bt[tags[i]].size >= size
        invariant forall j :: first <= j < i ==> bt[tags[j]].busy || bt[tags[j]].size < size
      {
        i := i + 1;
      }
      if i == |tags| {
        NoneFits(bt, tags, spans, units, size);
      } else {
        assert CanHold(bt, size);
      }
    }

    /**
      arb_alloc, for every request. `tmp` is the tag record for a split, if there is one. When the
      rounded size passes 32 bits the code cuts a tag smaller than a unit off the first free tag, and
      hands it out if some span holds its address.
     */
    method Alloc(rsize: nat, mode: Mode, tmp: Option<TagId>) returns (r: Grant)
      requires Valid() && units > 0 && rsize < TWO32 && (tmp.Some? ==> tmp.value !in bt)
      modifies this
      ensures spans == old(spans)
      ensures r.NoMem? <==> rsize == 0 || !CanHold(old(bt), Round32(rsize, units))
      ensures r.NoMem? ==> Model() == old(Model())
      ensures r.Granted? ==> Live(bt) == old(Live(bt)) + {(r.addr, Round32(rsize, units))}
      ensures r.Granted? ==> exists id :: GrantedFrom(old(bt), bt, id, Round32(rsize, units), tmp, r.addr)
      // the rounded size fits in 32 bits
      ensures RoundUp(rsize, units) < TWO32 ==> Valid() && Round32(rsize, units) == RoundUp(rsize, units)
      ensures RoundUp(rsize, units) < TWO32 && r.Fault? ==> tmp.None? && Model() == old(Model())
      ensures RoundUp(rsize, units) < TWO32 && r.Granted? ==> ClearOf(old(Live(bt)), r.addr, RoundUp(rsize, units))
      // it does not
      ensures RoundUp(rsize, units) >= TWO32 ==>
        !CanHold(old(bt), RoundUp(rsize, units)) && Round32(rsize, units) < units
      ensures RoundUp(rsize, units) >= TWO32 && !r.NoMem? && tmp.Some? ==>
        !Valid() && FromFirstFree(r, old(bt), old(tags), Round32(rsize, units), spans)
      ensures RoundUp(rsize, units) >= TWO32 && r.Granted? && Round32(rsize, units) == 0 ==>
        forall y :: y in old(bt) && old(bt)[y].start == r.addr ==> r.addr in hash && hash[r.addr] != y
    {
      hide Geometry, ListsAgree, Coalesced, Used, Live, Lookup, SameRanges, SplitTags, Split32, ClearOf, RoundUp;
      hide Round32, InRange, Listed, CanHold, GrantTags;
      r := NoMem;
      Round32Small(rsize, units);
      NoRoomFor(Model(), units, RoundUp(rsize, units));
      if rsize == 0 {
        return;
      }
      var size := Round32(rsize, units);
      var i := FindRoom(size, mode);
      if i == |tags| {
        return;
      }
      var id := tags[i];
      TagHoldsUnit(bt, tags, spans, units, id);
      NarrowTags(Model(), units);
      r := Granted(bt[id].End() - size);
      RoomIsClear(Model(), units, id, size);
      var ok;
      if bt[id].size != size {
        if tmp.None? {
          return Fault;
        }
        ok := GrantPart(id, size, tmp.value);
      } else {
        GrantWhole(id, tmp);
        ok := true;
      }
      if !ok {
        return Fault;
      }
      assert GrantedFrom(old(bt), bt, id, size, tmp, r.addr);
    }

    /** The splitting branch of arb_alloc and its tail. Not ok: no span holds the new tag. */
    method GrantPart(id: TagId, n: nat, tmp: TagId) returns (ok: bool)
      requires Valid() && units > 0 && id in bt && !bt[id].busy && n < bt[id].size && tmp !in bt && (n < units || n % units == 0)
      modifies this`bt, this`tags, this`free, this`hash, this`usage
      ensures GrantedFrom(old(bt), bt, id, n, Some(tmp), old(bt[id].End()) - n)
      ensures Live(bt) == old(Live(bt)) + {(old(bt[id].End()) - n, n)}
      ensures ok <==> exists k :: 0 <= k < |spans| && spans[k].Covers(old(bt[id].End()) - n)
      ensures Valid() <==> n >= units
      ensures n >= units ==> ok
      ensures ok && n == 0 ==>
        forall y :: y in old(bt) && old(bt)[y].start == old(bt[id].End()) ==>
          old(bt)[y].start in hash && hash[old(bt)[y].start] != y
    {
      hide Geometry, ListsAgree, Coalesced, Used, Live, Lookup, SameRanges, SplitTags, Split32, InRange, Listed, GrantTags;
      TagHoldsUnit(bt, tags, spans, units, id);
      NarrowTags(Model(), units);
      AgreeRaw(Model(), units, {}, {});
      ListedHas(bt, tags, id);
      Split32Exact(bt, id, n, tmp);
      SplitFacts(bt, id, n, tmp);
      SplitTag(id, n, tmp, {});
      SameRangesAt(SplitTags(old(bt), id, n, tmp), bt, tmp);
      ghost var mid := Model();
      ok := MarkBusy(tmp, {} + {old(bt[id].End()) - n});
      SplitGrant(old(bt), mid.bt, id, n, tmp);
      if n < units {
        WrappedGrant(old(Model()), mid, Model(), units, id, n, tmp);
      }
    }

    /** The other branch of arb_alloc and its tail. */
    method GrantWhole(id: TagId, ghost tmp: Option<TagId>)
      requires Valid() && units > 0 && id in bt && !bt[id].busy
      modifies this`bt, this`free, this`hash, this`usage
      ensures Valid() && GrantedFrom(old(bt), bt, id, old(bt[id]).size, tmp, old(bt[id]).start)
      ensures Live(bt) == old(Live(bt)) + {old((bt[id].start, bt[id].size))}
    {
      hide Agree, Live, SameRanges, InRange, GrantTags;
      RemFreelist(id, {}, {});
      SameRangesAt(old(bt), bt, id);
      WholeGrant(old(bt), bt, id, tmp);
      assert {} + {id} == {id};
      var ok := MarkBusy(id, {});
    }

    /** arb_add_range. `tmp` is the tag record, or None when the object cache or the table cannot be allocated. */
    method AddRange(start: nat, size: nat, tmp: Option<TagId>) returns (ok: bool)
      requires Valid() && units > 0 && (tmp.Some? ==> tmp.value !in bt)
      requires start + size < TWO32 && forall sp :: sp in spans ==> sp.End() <= start || start + size <= sp.start
      modifies this
      ensures Valid() && Live(bt) == old(Live(bt))
      ensures ok <==> size > 0 && size % units == 0 && tmp.Some?
      ensures !ok ==> Model() == old(Model())
      ensures ok ==> multiset(spans) == multiset(old(spans)) + multiset{Span(start, size)}
      ensures ok ==> SameRanges(old(bt)[tmp.value := Tag(start, size, false, -1)], bt)
    {
      hide Agree, Live, InsertAt, SameRanges, SpanFits, TagFits;
      if size == 0 || size % units != 0 || tmp.None? {
        return false;
      }
      var sp := Span(start, size);
      var k, i := FindPlace(sp);
      AddStep(Model(), units, k, i, sp, tmp.value);
      InsertContents(spans, k, sp);
      spans := InsertAt(spans, k, sp);
      bt := bt[tmp.value := Tag(start, size, false, -1)];
      tags := InsertAt(tags, i, tmp.value);
      AddFreelist(tmp.value, {tmp.value}, {});
      assert {tmp.value} - {tmp.value} == {};
      return true;
    }

    /** The two searches of arb_add_range: where the span and its tag belong. */
    method FindPlace(sp: Span) returns (k: nat, i: nat)
      requires Valid() && units > 0 && sp.size > 0 && forall x :: x in spans ==> x.End() <= sp.start || sp.End() <= x.start
      ensures k <= |spans| && i <= |tags| && SpanFits(spans, k, sp) && TagFits(bt, tags, i, sp.start)
    {
      hide ListsAgree, Coalesced, Used, Lookup, Complete, Disjoint, Tiled;
      k := 0;
      while k < |spans| && spans[k].start < sp.start
        invariant k <= |spans|
        invariant forall j :: 0 <= j < k ==> spans[j].End() <= sp.start
      {
        assert spans[k] in spans;
        k := k + 1;
      }
      i := 0;
      while i < |tags| && bt[tags[i]].start < sp.start
        invariant i <= |tags|
        invariant forall j :: 0 <= j < i ==> bt[tags[j]].start < sp.start
      {
        i := i + 1;
      }
      AddPlace(Model(), units, k, i, sp);
    }

    /** The search of arb_reserve: a tag that passes its test, free or not. */
    method FindCovering(res: nat, size: nat) returns (r: Option<TagId>)
      requires Valid()
      ensures r.Some? ==> r.value in bt && Passes(bt[r.value], res, size)
      ensures r.None? ==> forall id :: id in bt ==> !Passes(bt[id], res, size)
    {
      hide ListsAgree, Coalesced, Used, Lookup, Disjoint, Tiled;
      var i := 0;
      while i < |tags| && bt[tags[i]].start <= res
        invariant i <= |tags|
        invariant forall j :: 0 <= j < i ==> !Passes(bt[tags[j]], res, size)
      {
        if bt[tags[i]].start + bt[tags[i]].size >= Sum32(res, size) {
          return Some(tags[i]);
        }
        i := i + 1;
      }
      forall id | id in bt ensures !Passes(bt[id], res, size) {
        assert Has(tags, id);
        var j :| 0 <= j < |tags| && tags[j] == id;
      }
      return None;
    }

    /**
      arb_reserve as written, for every position and size: it takes the first tag that passes its test,
      free or not, and wherever in it the range starts. The views go on agreeing if and only if neither
      the rounding nor the sum wraps, and a free tag covers the range on one of its units.
     */
    method Reserve(res: nat, rsize: nat, right: TagId, tmp: TagId) returns (r: Grant)
      requires Valid() && units > 0 && res < TWO32 && rsize < TWO32
      requires right !in bt && tmp !in bt && right != tmp
      modifies this
      ensures spans == old(spans)
      ensures r.NoMem? <==>
        rsize == 0 || forall id :: id in old(bt) ==> !Passes(old(bt)[id], res, Round32(rsize, units))
      ensures r.NoMem? ==> Model() == old(Model())
      ensures !r.NoMem? ==> WrapOutcome(r, res, spans)
      ensures res + RoundUp(rsize, units) < TWO32 ==>
        !r.Fault? && (r.Granted? <==> rsize > 0 && CoveredBy(old(bt), res, RoundUp(rsize, units)))
      ensures Valid() <==>
        r.NoMem? || (res + RoundUp(rsize, units) < TWO32 && FreeAt(old(bt), res, RoundUp(rsize, units), units))
      ensures r.Granted? && Valid() ==>
        Live(bt) == old(Live(bt)) + {(res, RoundUp(rsize, units))} && ClearOf(old(Live(bt)), res, RoundUp(rsize, units))
    {
      hide Agree, Live, ClearOf, RoundUp, Round32, Narrow, Passes, FreeAt, CoveredBy, Whole, FitsAt, WrapOutcome;
      r := NoMem;
      if rsize == 0 {
        return;
      }
      var size := Round32(rsize, units);
      ReserveSizes(Model(), units, res, rsize);
      var f := FindCovering(res, size);
      if f.None? {
        return;
      }
      var id := f.value;
      FitsFacts(bt[id], res, size, units);
      if Whole(res, size, units) {
        ReserveReady(Model(), units, id, res, size);
      }
      var ok := CarveOut(id, res, size, right, tmp);
      r := if ok then Granted(res) else Fault;
      assert WrapOutcome(r, res, spans) by {
        OutcomeIs(r, ok, res, spans);
      }
    }

    /** The branches of arb_reserve that have found a tag. */
    method CarveOut(id: TagId, res: nat, size: nat, right: TagId, tmp: TagId) returns (ok: bool)
      requires Valid() && units > 0 && id in bt && res < TWO32 && size < TWO32 && Passes(bt[id], res, size)
      requires right !in bt && tmp !in bt && right != tmp
      modifies this`bt, this`tags, this`free, this`hash, this`usage
      ensures ok <==> exists k :: 0 <= k < |spans| && spans[k].Covers(res)
      ensures Valid() <==> old(FitsAt(bt[id], res, size, units))
      ensures Valid() ==> ok && Live(bt) == old(Live(bt)) + {(res, size)}
    {
      hide Agree, Used, Live, InRange, Listed, Narrow, Passes, FitsAt, FitsRight, Whole;
      ghost var s0 := Model();
      NarrowTags(s0, units);
      var diff := CutSize(bt[id], res, size);
      CarveReady(s0, units, id, res, size, diff);
      ghost var fit := FitsAt(bt[id], res, size, units);
      CutRight(id, diff, right, tmp);
      ghost var seams: set<int> := if diff == 0 then {} else {res + size};
      assert fit ==> FitsRight(bt[id], res, size, units) by {
        RightFits(s0.bt[id], bt[id], res, size, units);
      }
      ghost var x;
      ok, x := TakeRight(id, res, size, tmp, seams);
      CarveVerdict(s0, Model(), units, id, x, res, size, diff);
    }

    /** What lies to the right of the range becomes a free tag of its own. */
    method CutRight(id: TagId, diff: nat, right: TagId, ghost tmp: TagId)
      requires Agree(Model(), units, {}, {}) && units > 0 && id in bt && bt[id].End() < TWO32
      requires right !in bt && tmp !in bt && tmp != right
      modifies this`bt, this`tags, this`free
      ensures InRange(bt, free) && id in bt && tmp !in bt && Has(tags, id)
      ensures bt[id].start == old(bt[id]).start && bt[id].size == (old(bt[id]).size - diff) % TWO32
      ensures bt[id].busy == old(bt[id]).busy
      ensures diff < old(bt[id]).size ==>
        Listed(bt, tags) && Used(bt, tags) == old(Used(bt, tags)) - (if old(bt[id]).busy then diff else 0)
      ensures !old(bt[id]).busy && diff < old(bt[id]).size && diff % units == 0 ==>
        Agree(Model(), units, {}, if diff == 0 then {} else {old(bt[id].End()) - diff}) && Live(bt) == old(Live(bt))
    {
      hide Geometry, ListsAgree, Coalesced, Used, Live, Lookup, SameRanges, SplitTags, Split32, InRange, Listed;
      AgreeRaw(Model(), units, {}, {});
      ListedHas(bt, tags, id);
      if diff == 0 {
        return;
      }
      Split32Facts(bt, id, diff, right);
      ghost var b := Split32(bt, id, diff, right);
      SplitTag(id, diff, right, {});
      SameRangesAt(b, bt, right);
      SameRangesTransfer(b, bt, id, tmp);
      ghost var c := bt;
      assert {} + {old(bt[id].End()) - diff} == {old(bt[id].End()) - diff};
      AddFreelist(right, {right}, {old(bt[id].End()) - diff});
      assert {right} - {right} == {};
      SameRangesTransfer(c, bt, id, tmp);
      if diff < old(bt[id]).size {
        RelabelRaw(c, bt, tags);
      }
    }

    /** The range, now at the right end of its tag, is marked; `x` is its tag. Not ok: no span holds it. */
    method TakeRight(id: TagId, res: nat, size: nat, tmp: TagId, ghost seams: set<int>) returns (ok: bool,
                     ghost x: TagId)
      requires InRange(bt, free) && units > 0 && id in bt && Has(tags, id) && tmp !in bt && res < TWO32 && size < TWO32
      requires bt[id].start <= res && bt[id].size < TWO32
      requires (bt[id].start + bt[id].size) % TWO32 == (res + size) % TWO32
      modifies this`bt, this`tags, this`free, this`hash, this`usage
      ensures x in bt && bt[x].start == res && bt[x].size == size
      ensures ok <==> exists k :: 0 <= k < |spans| && spans[k].Covers(res)
      ensures ok && old(Listed(bt, tags)) && 0 < size && old(bt[id]).End() == res + size < TWO32 ==>
        usage == old(usage) + size && Used(bt, tags) == old(Used(bt, tags)) + (if old(bt[id]).busy then 0 else size)
      ensures old(Agree(Model(), units, {}, seams) && FitsRight(bt[id], res, size, units)) && seams <= {res + size} ==>
        ok && Agree(Model(), units, {}, {}) && Live(bt) == old(Live(bt)) + {(res, size)}
    {
      hide Geometry, ListsAgree, Coalesced, Used, Live, Lookup, SameRanges, SplitTags, Split32, InRange, Listed, Agree;
      CutPosition(bt[id].start, bt[id].size, res, size);
      ghost var exact := Listed(bt, tags) && 0 < size && bt[id].End() == res + size < TWO32;
      if bt[id].start == res {
        RemFreelist(id, {}, seams);
        assert {} + {id} == {id};
        SameRangesAt(old(bt), bt, id);
        if exact {
          RelabelRaw(old(bt), bt, tags);
          MarkRaw(bt, tags, id);
        }
        ok := MarkBusy(id, seams);
        x := id;
      } else {
        Split32Facts(bt, id, size, tmp);
        ghost var b := Split32(bt, id, size, tmp);
        SplitTag(id, size, tmp, seams);
        SameRangesAt(b, bt, tmp);
        if exact {
          MarkRaw(bt, tags, tmp);
        }
        ok := MarkBusy(tmp, seams + {res});
        x := tmp;
      }
    }

    /** arb_size: the size of the live allocation whose first unit holds `res`. */
    method Size(res: nat) returns (r: Option<nat>)
      requires Valid() && units > 0
      ensures r.Some? ==> exists a: nat :: (a, r.value) in Live(bt) && a <= res < a + units
      ensures r.None? ==> forall p :: p in Live(bt) ==> !(p.0 <= res < p.0 + units)
    {
      hide ListsAgree, Coalesced, Used, Geometry;
      var k := GetSpan(res);
      if k == |spans| {
        NoSpanNoOwner(Model(), units, res, k);
        return None;
      }
      var slot := res - (res - spans[k].start) % units;
      SlotOwner(Model(), units, res, k);
      if slot !in hash {
        return None;
      }
      assert (slot, bt[hash[slot]].size) in Live(bt);
      return Some(bt[hash[slot]].size);
    }

    /** arb_free: releases exactly the live allocation whose first unit holds `res`, if there is one. */
    method Free(res: nat)
      requires Valid() && units > 0
      modifies this
      ensures Valid() && spans == old(spans)
      ensures Live(bt) == set p | p in old(Live(bt)) && !(p.0 <= res < p.0 + units)
    {
      hide ListsAgree, Coalesced, Used, Sorted, Complete, Disjoint, Tiled, Live;
      var k := GetSpan(res);
      if k == |spans| {
        NoSpanNoOwner(Model(), units, res, k);
        return;
      }
      var sp := spans[k];
      var slot := res - (res - sp.start) % units;
      SlotOwner(Model(), units, res, k);
      if slot !in hash {
        return;
      }
      var id := hash[slot];
      ReleasedPair(Model(), units, id, res, k);
      var i := IndexOf(id);
      assert sp.Covers(bt[id].start);
      FreeStep(Model(), units, i);
      TagInSpan(bt, tags, spans, units, id, sp);
      ghost var s0 := Model();
      hash := hash - {slot};
      usage := usage - bt[id].size;
      bt := bt[id := bt[id].(busy := false)];
      assert Model() == Freed(s0, id);
      hide Geometry, Lookup;
      Melt(id, i, sp);
    }

    /** The melting part of arb_free. */
    method Melt(id: TagId, at: nat, sp: Span)
      requires units > 0 && at < |tags| && tags[at] == id && id in bt && !bt[id].busy && Sorted(bt, tags)
      requires sp in spans && Inside(bt[id], sp, units)
      requires Agree(Model(), units, {id}, {bt[id].start as int, bt[id].End()})
      modifies this`bt, this`tags, this`free
      ensures Agree(Model(), units, {}, {}) && Live(bt) == old(Live(bt))
    {
      hide Agree, Live, MergeTags, RemoveAt, SameRanges, InRange;
      var cur, i := id, at;
      ghost var end := bt[id].End();
      if i > 0 && !bt[tags[i - 1]].busy && bt[tags[i - 1]].start >= sp.start {
        var prev := tags[i - 1];
        LeftInSpan(Model(), units, {id}, {bt[id].start as int, end}, i, sp);
        ghost var b := bt;
        RemFreelist(prev, {id}, {bt[id].start as int, end});
        assert {id} + {prev} == {tags[i - 1], tags[i]};
        MeltReady(b, bt, tags, i - 1, sp, units);
        MeltStep(Model(), units, {bt[id].start as int, end}, i - 1, sp);
        MeltedFacts(Model(), units, {bt[id].start as int, end}, i - 1, sp);
        assert {bt[id].start as int, end} - {bt[id].start as int} == {end};
        bt := MergeTags(bt, prev, id);
        tags := RemoveAt(tags, i);
        cur, i := prev, i - 1;
      } else {
        LeftSeamClosed(Model(), units, {id}, {bt[id].start as int, end}, i, sp);
        assert {bt[id].start as int, end} - {bt[id].start as int} == {end};
      }
      assert cur in bt && i < |tags| && tags[i] == cur && !bt[cur].busy && bt[cur].End() == end;
      assert Sorted(bt, tags) && Inside(bt[cur], sp, units) && Agree(Model(), units, {cur}, {end});
      MeltRight(cur, i, sp);
    }

    method MeltRight(cur: TagId, i: nat, sp: Span)
      requires units > 0 && i < |tags| && tags[i] == cur && cur in bt && !bt[cur].busy && Sorted(bt, tags)
      requires sp in spans && Inside(bt[cur], sp, units)
      requires Agree(Model(), units, {cur}, {bt[cur].End() as int})
      modifies this`bt, this`tags, this`free
      ensures Agree(Model(), units, {}, {}) && Live(bt) == old(Live(bt))
    {
      hide Agree, Live, MergeTags, RemoveAt, SameRanges, InRange;
      ghost var end: int := bt[cur].End();
      if i + 1 < |tags| && !bt[tags[i + 1]].busy && bt[tags[i + 1]].start < sp.End() {
        var next := tags[i + 1];
        RightInSpan(Model(), units, {cur}, {end}, i, sp);
        ghost var b := bt;
        RemFreelist(next, {cur}, {end});
        assert {cur} + {next} == {tags[i], tags[i + 1]};
        MeltReady(b, bt, tags, i, sp, units);
        MeltStep(Model(), units, {end}, i, sp);
        MeltedFacts(Model(), units, {end}, i, sp);
        assert {end} - {end} == {};
        bt := MergeTags(bt, cur, next);
        tags := RemoveAt(tags, i + 1);
      } else {
        RightSeamClosed(Model(), units, {cur}, {end}, i, sp);
        assert {end} - {end} == {};
      }
      AddFreelist(cur, {cur}, {});
      assert {cur} - {cur} == {};
    }
  }

  /** arb_reserve hands a live allocation out a second time: add a range of one unit, allocate it, reserve it. */
  method ReserveTwice(units: nat, mode: Mode) returns (first: Grant, second: Grant)
    requires 0 < units < TWO32
    ensures first == Granted(0) && second == Granted(0)
  {
    var arb := new Allocator(units, 0);
    var ok := arb.AddRange(0, units, Some(0));
    RoundUpUnit(units);
    OneFreeTag(arb.bt, units);
    hide Agree, SameRanges, RoundUp, Round32, Live, CanHold, ClearOf, CoveredBy, FreeAt, Narrow, GrantedFrom;
    ghost var b := arb.bt;
    first := arb.Alloc(units, mode, Some(1));
    GrantedKeys(b, arb.bt, units, first.addr);
    assert (first.addr, units) in Live(arb.bt);
    SoleUnit(arb.Model(), units, first.addr);
    second := arb.Reserve(0, units, 2, 3);
  }

  /** A range of 64 KB and a reservation of nearly 4 GB in it, which the sum wraps for: it is granted. */
  method ReserveWraps() returns (r: Grant)
    ensures r == Granted(0x2000)
  {
    var arb := new Allocator(4096, 0);
    var ok := arb.AddRange(0, 0x1_0000, Some(0));
    OneTagPasses(arb.bt);
    SpanHolds(arb.spans, 0, 0x1_0000, 0x2000);
    hide Agree, SameRanges, Round32, RoundUp, Live, ClearOf, CoveredBy, FreeAt, Narrow, Passes;
    r := arb.Reserve(0x2000, 0xFFFF_F000, 1, 2);
  }

  /** Two pages, of which the upper one is live under tag 1. */
  method TwoPages(mode: Mode) returns (arb: Allocator, first: Grant)
    ensures fresh(arb) && arb.Valid() && arb.units == 4096 && first == Granted(4096) && UpperLive(arb.bt)
    ensures exists k :: 0 <= k < |arb.spans| && arb.spans[k].Covers(4096)
  {
    arb := new Allocator(4096, 0);
    var ok := arb.AddRange(0, 8192, Some(0));
    TwoPagesFree(arb.bt);
    Round32Page();
    SpanHolds(arb.spans, 0, 8192, 4096);
    hide Agree, SameRanges, RoundUp, Round32, Live, CanHold, ClearOf, Narrow, GrantedFrom, FirstFree, UpperLive;
    ghost var b := arb.bt;
    first := arb.Alloc(4096, mode, Some(1));
    OnePageLeft(b, arb.bt, first.addr);
  }

  /** A request for 4 GB less one byte is granted the address of the live page, whose lookup slot it takes over. */
  method FourGigabytes(mode: Mode) returns (first: Grant, second: Grant, owner: TagId)
    ensures first == Granted(4096) && second == Granted(4096) && owner != 1
  {
    var arb;
    arb, first := TwoPages(mode);
    UpperFacts(arb.bt, arb.tags);
    Round32Page();
    hide Agree, SameRanges, RoundUp, Round32, Live, CanHold, ClearOf, Narrow, GrantedFrom, FirstFree, UpperLive;
    second := arb.Alloc(0xFFFF_FFFF, mode, Some(2));
    owner := arb.hash[4096];
  }

  ghost predicate UpperLive(bt: map<TagId, Tag>) {
    && 0 in bt && !bt[0].busy && bt[0].End() == 4096 && 1 in bt && bt[1].start == 4096 && 2 !in bt
    && forall x :: x in bt && x != 0 ==> bt[x].busy
  }

  lemma UpperFacts(bt: map<TagId, Tag>, tags: seq<TagId>)
    requires UpperLive(bt)
    ensures CanHold(bt, 0) && 2 !in bt && 1 in bt && bt[1].start == 4096
    ensures forall i :: FirstFree(bt, tags, i) ==> tags[i] == 0 && bt[0].End() == 4096
  {
    assert !bt[0].busy && bt[0].size >= 0;
  }

  lemma RoundUpUnit(units: nat)
    requires 0 < units < TWO32
    ensures RoundUp(units, units) == units == Round32(units, units)
  {
  }

  lemma OneFreeTag(bt: map<TagId, Tag>, units: nat)
    requires SameRanges(map[][0 := Tag(0, units, false, -1)], bt)
    ensures CanHold(bt, units) && forall x :: x in bt ==> x == 0
  {
    assert 0 in bt && !bt[0].busy && bt[0].size >= units;
  }

  lemma OneTagPasses(bt: map<TagId, Tag>)
    requires SameRanges(map[][0 := Tag(0, 0x1_0000, false, -1)], bt)
    ensures 0 in bt && Passes(bt[0], 0x2000, Round32(0xFFFF_F000, 4096)) && 1 !in bt && 2 !in bt
  {
  }

  lemma SpanHolds(spans: seq<Span>, start: nat, size: nat, a: nat)
    requires multiset(spans) == multiset([]) + multiset{Span(start, size)} && start <= a < start + size
    ensures exists k :: 0 <= k < |spans| && spans[k].Covers(a)
  {
    assert Span(start, size) in multiset(spans);
    var k :| 0 <= k < |spans| && spans[k] == Span(start, size);
    assert spans[k].Covers(a);
  }

  lemma Round32Page()
    ensures RoundUp(4096, 4096) == 4096 == Round32(4096, 4096)
    ensures Round32(0xFFFF_FFFF, 4096) == 0 && RoundUp(0xFFFF_FFFF, 4096) >= TWO32
  {
    Round32Zero(0xFFFF_FFFF, 4096);
  }

  lemma TwoPagesFree(bt: map<TagId, Tag>)
    requires SameRanges(map[][0 := Tag(0, 8192, false, -1)], bt)
    ensures CanHold(bt, 4096) && 0 in bt && bt[0].size == 8192 && bt[0].start == 0 && forall x :: x in bt ==> x == 0
  {
    assert 0 in bt && !bt[0].busy;
  }

  lemma OnePageLeft(bt: map<TagId, Tag>, bt': map<TagId, Tag>, a: nat)
    requires 0 in bt && bt[0].size == 8192 && bt[0].start == 0 && (forall x :: x in bt ==> x == 0)
    requires exists id :: GrantedFrom(bt, bt', id, 4096, Some(1), a)
    ensures a == 4096 && UpperLive(bt')
  {
    var id :| GrantedFrom(bt, bt', id, 4096, Some(1), a);
    var g := GrantTags(bt, 0, 4096, Some(1));
    assert g[0].size == 4096 && !g[0].busy && g[1] == Tag(4096, 4096, true, -1);
    assert forall x :: x in g <==> x == 0 || x == 1;
  }

  lemma GrantedKeys(bt: map<TagId, Tag>, bt': map<TagId, Tag>, n: nat, a: nat)
    requires (forall x :: x in bt ==> x == 0) && exists id :: GrantedFrom(bt, bt', id, n, Some(1), a)
    ensures 2 !in bt' && 3 !in bt'
  {
    var id :| GrantedFrom(bt, bt', id, n, Some(1), a);
  }

  /** In a span of one unit a live unit is the whole span. */
  lemma SoleUnit(s: State, units: nat, a: nat)
    requires Agree(s, units, {}, {}) && multiset(s.spans) == multiset{Span(0, units)} && (a, units) in Live(s.bt)
    ensures a == 0 && CoveredBy(s.bt, 0, units)
  {
    hide ListsAgree, Coalesced, Lookup, Used, Sorted, Complete, Disjoint;
    var id :| id in s.bt && s.bt[id].busy && (a, units) == (s.bt[id].start, s.bt[id].size);
    assert Within(s.bt[id], s.spans, units);
    var sp :| sp in s.spans && Inside(s.bt[id], sp, units);
    assert sp in multiset(s.spans);
  }

  // ---------- Facts for the proofs of the methods ----------

  function SlotOf(sp: Span, a: nat, units: nat): (slot: nat)
    requires units > 0 && sp.start <= a
  {
    a - (a - sp.start) % units
  }

  lemma TagsHoldUnits(bt: map<TagId, Tag>, tags: seq<TagId>, spans: seq<Span>, units: nat)
    requires units > 0 && Geometry(bt, tags, spans, units)
    ensures forall id :: id in bt ==> bt[id].size >= units
  {
    hide Geometry;
    forall id | id in bt ensures bt[id].size >= units {
      TagHoldsUnit(bt, tags, spans, units, id);
    }
  }

  lemma NoUnits(n: nat, units: nat)
    requires n < units
    ensures UnitsIn(n, units) == 0
  {
  }

  lemma SplitGrant(bt: map<TagId, Tag>, mid: map<TagId, Tag>, id: TagId, n: nat, tmp: TagId)
    requires id in bt && n < bt[id].size && tmp !in bt && SameRanges(SplitTags(bt, id, n, tmp), mid) && tmp in mid
    ensures SameRanges(GrantTags(bt, id, n, Some(tmp)), mid[tmp := mid[tmp].(busy := true)])
  {
  }

  lemma WholeGrant(bt: map<TagId, Tag>, mid: map<TagId, Tag>, id: TagId, tmp: Option<TagId>)
    requires id in bt && SameRanges(bt, mid) && id in mid
    ensures SameRanges(GrantTags(bt, id, bt[id].size, tmp), mid[id := mid[id].(busy := true)])
  {
  }

  /** With no wrap the test of arb_reserve is coverage, and the size is a whole one; with a wrap it is not. */
  lemma ReserveSizes(s: State, units: nat, res: nat, rsize: nat)
    requires Agree(s, units, {}, {}) && Narrow(s.spans) && units > 0 && 0 < rsize < TWO32 && res < TWO32
    ensures var n := Round32(rsize, units);
            && n < TWO32 && (res + RoundUp(rsize, units) < TWO32 <==> Whole(res, n, units))
            && (Whole(res, n, units) ==> n == RoundUp(rsize, units))
            && (Whole(res, n, units) ==> (CoveredBy(s.bt, res, n) <==> exists id :: id in s.bt && Passes(s.bt[id], res, n)))
  {
    Round32Small(rsize, units);
    SizePositive(rsize, units);
    hide Agree, Narrow, RoundUp, Round32;
    NarrowTags(s, units);
    var n := Round32(rsize, units);
    WholeFacts(res, n, units);
    hide Whole;
    assert res + n < TWO32 ==> Sum32(res, n) == res + n;
  }

  /** The test without a wrap. */
  predicate Whole(res: nat, n: nat, units: nat)
    requires units > 0
  {
    0 < n && n % units == 0 && res + n < TWO32
  }

  lemma ReserveReady(s: State, units: nat, id: TagId, res: nat, n: nat)
    requires Agree(s, units, {}, {}) && units > 0 && id in s.bt && Passes(s.bt[id], res, n) && Whole(res, n, units)
    ensures exists k :: 0 <= k < |s.spans| && s.spans[k].Covers(res)
    ensures FitsAt(s.bt[id], res, n, units) ==> ClearOf(Live(s.bt), res, n)
    ensures FreeAt(s.bt, res, n, units) <==> FitsAt(s.bt[id], res, n, units)
  {
    assert s.bt[id].start <= res && res + n <= s.bt[id].End();
    hide Agree, ClearOf, Live, Passes;
    InsideSpan(s, units, id, res);
    if !s.bt[id].busy {
      assert FreeSpace(s.bt, res, n);
      FreeSpaceIsClear(s, units, res, n);
    }
    FreeAtUnique(s, units, id, res, n);
  }

  lemma FreeAtUnique(s: State, units: nat, id: TagId, res: nat, n: nat)
    requires Agree(s, units, {}, {}) && units > 0 && id in s.bt && s.bt[id].start <= res && res + n <= s.bt[id].End()
    requires Whole(res, n, units)
    ensures FreeAt(s.bt, res, n, units) <==> FitsAt(s.bt[id], res, n, units)
  {
    hide Agree;
    if FreeAt(s.bt, res, n, units) {
      var x :| x in s.bt && !s.bt[x].busy && s.bt[x].start <= res && res + n <= s.bt[x].End() &&
               (res - s.bt[x].start) % units == 0;
      CoveringIsUnique(s, units, x, id, res, n);
    }
  }

  /** The size of the first cut of arb_reserve. */
  function CutSize(t: Tag, res: nat, size: nat): (diff: nat)
    ensures diff < TWO32
  {
    (t.start + t.size - (res + size)) % TWO32
  }

  lemma CarveReady(s: State, units: nat, id: TagId, res: nat, size: nat, diff: nat)
    requires Agree(s, units, {}, {}) && units > 0 && id in s.bt && s.bt[id].End() < TWO32
    requires res < TWO32 && size < TWO32 && Passes(s.bt[id], res, size) && diff == CutSize(s.bt[id], res, size)
    ensures s.usage == Used(s.bt, s.tags) && s.bt[id].start <= res
    ensures (s.bt[id].start + (s.bt[id].size - diff) % TWO32) % TWO32 == (res + size) % TWO32
    ensures Whole(res, size, units) ==>
              && 0 < size && diff < s.bt[id].size && s.bt[id].start + (s.bt[id].size - diff) % TWO32 == res + size < TWO32
              && s.bt[id].End() - diff == res + size && exists k :: 0 <= k < |s.spans| && s.spans[k].Covers(res)
    ensures FitsAt(s.bt[id], res, size, units) ==> !s.bt[id].busy && diff % units == 0 && Whole(res, size, units)
  {
    AgreeRaw(s, units, {}, {});
    CutArith(s.bt[id], res, size);
    WholeFacts(res, size, units);
    FitsFacts(s.bt[id], res, size, units);
    hide Agree, Used, Listed, Passes, CutSize, Whole, FitsAt;
    if Whole(res, size, units) {
      InsideSpan(s, units, id, res);
    }
    if FitsAt(s.bt[id], res, size, units) {
      ReserveAlignment(s, units, id, res, size);
    }
  }

  lemma OutcomeIs(r: Grant, ok: bool, a: nat, spans: seq<Span>)
    requires (ok <==> exists k :: 0 <= k < |spans| && spans[k].Covers(a)) && r == if ok then Granted(a) else Fault
    ensures WrapOutcome(r, a, spans)
  {
  }

  lemma WholeFacts(res: nat, n: nat, units: nat)
    requires units > 0
    ensures Whole(res, n, units) ==> 0 < n && res + n < TWO32 && n % units == 0
    ensures n < units || res + n >= TWO32 ==> !Whole(res, n, units)
    ensures 0 < n && n % units == 0 && res + n < TWO32 ==> Whole(res, n, units)
  {
    if 0 < n && n % units == 0 {
      MultipleAtLeast(n, units);
    }
  }

  lemma FitsFacts(t: Tag, res: nat, n: nat, units: nat)
    requires units > 0
    ensures FitsAt(t, res, n, units) ==>
      !t.busy && Whole(res, n, units) && t.start <= res && (res - t.start) % units == 0 && n % units == 0
  {
  }

  lemma CutArith(t: Tag, res: nat, size: nat)
    requires t.End() < TWO32 && res < TWO32 && size < TWO32 && Passes(t, res, size)
    ensures var diff := CutSize(t, res, size);
            && t.start <= res && (t.start + (t.size - diff) % TWO32) % TWO32 == (res + size) % TWO32
            && (res + size < TWO32 ==> res + size <= t.End() && diff == t.End() - (res + size))
            && (res + size < TWO32 && 0 < size ==> diff < t.size && t.start + (t.size - diff) % TWO32 == res + size)
  {
    CutEnd(t.start, t.size, res, size);
  }

  lemma RightFits(t: Tag, t': Tag, res: nat, size: nat, units: nat)
    requires units > 0 && FitsAt(t, res, size, units) ==> t'.busy == t.busy && t'.start + t'.size == res + size
    ensures units > 0 && FitsAt(t, res, size, units) ==> FitsRight(t', res, size, units)
  {
  }

  /** What became of the views, by the tag of the range and the two sums. */
  lemma CarveVerdict(s: State, s': State, units: nat, id: TagId, x: TagId, res: nat, size: nat, diff: nat)
    requires Agree(s, units, {}, {}) && Narrow(s.spans) && units > 0 && id in s.bt && s.bt[id].start <= res
    requires s'.spans == s.spans && x in s'.bt && s'.bt[x].start == res && s'.bt[x].size == size
    requires Whole(res, size, units) ==> res + size <= s.bt[id].End()
    requires Whole(res, size, units) && s.bt[id].busy ==>
               s'.usage == s.usage + size && Used(s'.bt, s'.tags) == Used(s.bt, s.tags) - diff
    ensures !FitsAt(s.bt[id], res, size, units) ==> !Agree(s', units, {}, {})
  {
    hide Agree, Used;
    if !Whole(res, size, units) {
      OddSizeDisagrees(s', units, x);
    } else if s.bt[id].busy {
      UsageDisagrees(s, s', units, size, diff);
    } else if (res - s.bt[id].start) % units != 0 {
      OddTagDisagrees(s, s', units, id, x);
    }
  }

  lemma UsageDisagrees(s: State, s': State, units: nat, size: nat, diff: nat)
    requires Agree(s, units, {}, {}) && size > 0 && s'.usage == s.usage + size
    requires Used(s'.bt, s'.tags) == Used(s.bt, s.tags) - diff
    ensures !Agree(s', units, {}, {})
  {
    hide Used, Geometry, ListsAgree, Coalesced, Lookup;
  }

  lemma FlInRange(bt: map<TagId, Tag>, free: seq<seq<TagId>>, id: TagId)
    requires InRange(bt, free) && id in bt
    ensures -1 <= bt[id].fl < |free|
  {
  }

  lemma ListedAt(bt: map<TagId, Tag>, tags: seq<TagId>)
    requires Listed(bt, tags)
    ensures Sorted(bt, tags) && forall i :: 0 <= i < |tags| ==> tags[i] in bt
  {
  }

  lemma ListedHas(bt: map<TagId, Tag>, tags: seq<TagId>, id: TagId)
    requires Listed(bt, tags) && id in bt
    ensures Has(tags, id)
  {
  }

  /** Rounding up past 32 bits leaves less than a unit. */
  lemma Round32Small(n: nat, units: nat)
    requires 0 < units && n < TWO32
    ensures RoundUp(n, units) < TWO32 ==> Round32(n, units) == RoundUp(n, units)
    ensures RoundUp(n, units) >= TWO32 ==> Round32(n, units) < units
    ensures RoundUp(n, units) < TWO32 && n > 0 ==> Round32(n, units) >= units && Round32(n, units) % units == 0
  {
    Round32Exact(n, units);
    if n > 0 {
      MultipleAtLeast(RoundUp(n, units), units);
    }
  }

  lemma SizePositive(n: nat, units: nat)
    requires units > 0 && n > 0
    ensures RoundUp(n, units) > 0 && RoundUp(n, units) % units == 0
  {
  }

  lemma NoRoomFor(s: State, units: nat, n: nat)
    requires Agree(s, units, {}, {}) && Narrow(s.spans)
    ensures n >= TWO32 ==> !CanHold(s.bt, n)
  {
    hide Agree, Narrow;
    NarrowTags(s, units);
  }

  lemma RoomIsClear(s: State, units: nat, id: TagId, n: nat)
    requires Agree(s, units, {}, {}) && id in s.bt && !s.bt[id].busy && n <= s.bt[id].size
    ensures ClearOf(Live(s.bt), s.bt[id].End() - n, n)
  {
    hide Agree;
    assert FreeSpace(s.bt, s.bt[id].End() - n, n);
    FreeSpaceIsClear(s, units, s.bt[id].End() - n, n);
  }

  lemma InsideSpan(s: State, units: nat, id: TagId, a: nat)
    requires Agree(s, units, {}, {}) && id in s.bt && s.bt[id].start <= a < s.bt[id].End()
    ensures exists k :: 0 <= k < |s.spans| && s.spans[k].Covers(a)
  {
    hide ListsAgree, Coalesced, Lookup, Used, Sorted, Complete, Disjoint;
    assert Within(s.bt[id], s.spans, units);
    var sp :| sp in s.spans && Inside(s.bt[id], sp, units);
    var k :| 0 <= k < |s.spans| && s.spans[k] == sp;
    assert s.spans[k].Covers(a);
  }

  /**
    The state after a grant of less than a unit: the views disagree, and the slot of a tag at that
    address is taken over.
   */
  lemma WrappedGrant(s: State, mid: State, s': State, units: nat, id: TagId, n: nat, tmp: TagId)
    requires Agree(s, units, {}, {}) && id in s.bt && !s.bt[id].busy && n < units <= s.bt[id].size && tmp !in s.bt
    requires SameRanges(SplitTags(s.bt, id, n, tmp), mid.bt) && tmp in mid.bt
    requires s'.bt == mid.bt[tmp := mid.bt[tmp].(busy := true)]
    ensures !Agree(s', units, {}, {})
    ensures Live(s'.bt) == Live(s.bt) + {(s.bt[id].End() - n, n)}
    ensures forall y, k | y in s.bt && s.bt[y].start == s.bt[id].End() && 0 <= k < |s.spans| ::
              s.spans[k].Covers(s.bt[y].start) ==>
              SlotOf(s.spans[k], s.bt[y].start, units) == s.bt[y].start
  {
    hide Geometry, ListsAgree, Coalesced, Lookup, Used, SameRanges, SplitTags, Live;
    SplitFacts(s.bt, id, n, tmp);
    SplitLive(s.bt, id, n, tmp);
    LiveSame(SplitTags(s.bt, id, n, tmp), mid.bt);
    SameRangesAt(SplitTags(s.bt, id, n, tmp), mid.bt, tmp);
    BusyAddsLive(mid.bt, tmp);
    SmallTagDisagrees(s', units, tmp);
    forall y, k | y in s.bt && s.bt[y].start == s.bt[id].End() && 0 <= k < |s.spans| && s.spans[k].Covers(s.bt[y].start)
      ensures SlotOf(s.spans[k], s.bt[y].start, units) == s.bt[y].start
    {
      StartSlot(s.bt, s.tags, s.spans, units, y, k);
    }
  }

  lemma AddPlace(s: State, units: nat, k: nat, i: nat, sp: Span)
    requires Agree(s, units, {}, {}) && units > 0 && sp.size > 0 && k <= |s.spans| && i <= |s.tags|
    requires forall x :: x in s.spans ==> x.End() <= sp.start || sp.End() <= x.start
    requires forall j :: 0 <= j < k ==> s.spans[j].End() <= sp.start
    requires k < |s.spans| ==> s.spans[k].start >= sp.start
    requires forall j :: 0 <= j < i ==> s.tags[j] in s.bt && s.bt[s.tags[j]].start < sp.start
    requires i < |s.tags| ==> s.tags[i] in s.bt && s.bt[s.tags[i]].start >= sp.start
    ensures SpanFits(s.spans, k, sp) && TagFits(s.bt, s.tags, i, sp.start)
  {
    hide ListsAgree, Coalesced, Used, Lookup, Complete, Disjoint;
    forall j | k <= j < |s.spans| ensures sp.End() <= s.spans[j].start {
      assert s.spans[j] in s.spans && s.spans[k] in s.spans;
    }
    forall j | i <= j < |s.tags| ensures s.tags[j] in s.bt && s.bt[s.tags[j]].start > sp.start {
      assert Within(s.bt[s.tags[j]], s.spans, units);
      assert j > i ==> s.bt[s.tags[i]].start < s.bt[s.tags[j]].start;
    }
  }

  lemma SameRangesTransfer(a: map<TagId, Tag>, b: map<TagId, Tag>, id: TagId, tmp: TagId)
    requires SameRanges(a, b) && id in a && tmp !in a
    ensures id in b && tmp !in b && b[id].start == a[id].start && b[id].size == a[id].size && b[id].busy == a[id].busy
  {
  }

  /** What is left of the covering tag on the right of a unit-aligned range is a whole number of units. */
  lemma ReserveAlignment(s: State, units: nat, id: TagId, res: nat, size: nat)
    requires Agree(s, units, {}, {}) && units > 0 && id in s.bt
    requires s.bt[id].start <= res && (res - s.bt[id].start) % units == 0 && size % units == 0
    ensures (s.bt[id].End() - (res + size)) % units == 0
  {
    hide ListsAgree, Coalesced, Used, Lookup;
    assert Within(s.bt[id], s.spans, units);
    AlignedSum(s.bt[id].size, res - s.bt[id].start, units);
    AlignedSum(s.bt[id].size - (res - s.bt[id].start), size, units);
  }

  lemma SlotIsStart(base: nat, a: nat, res: nat, units: nat)
    requires units > 0 && base <= a <= res < a + units && (a - base) % units == 0
    ensures res - (res - base) % units == a
  {
    var d := res - base;
    FloorAligned(d, units);
    AlignedSum(d - d % units, a - base, units);
    SmallMultiple((res - a) - d % units, units);
  }

  lemma SlotFloor(base: nat, res: nat, units: nat)
    requires units > 0 && base <= res
    ensures base <= res - (res - base) % units <= res < res - (res - base) % units + units
  {
    var d := res - base;
    assert d == units * (d / units) + d % units;
  }

  /** A live allocation whose first unit holds an address lies in that address's span, at its slot. */
  lemma OwnerAtSlot(s: State, units: nat, id: TagId, res: nat)
    requires Agree(s, units, {}, {}) && units > 0 && id in s.bt && s.bt[id].start <= res < s.bt[id].start + units
    ensures exists sp :: sp in s.spans && sp.Covers(res) && res - (res - sp.start) % units == s.bt[id].start
  {
    hide ListsAgree, Coalesced, Used, Lookup;
    TagHoldsUnit(s.bt, s.tags, s.spans, units, id);
    assert Within(s.bt[id], s.spans, units);
    var sp :| sp in s.spans && Inside(s.bt[id], sp, units);
    SlotIsStart(sp.start, s.bt[id].start, res, units);
  }

  lemma NoSpanNoOwner(s: State, units: nat, res: nat, k: nat)
    requires Agree(s, units, {}, {}) && units > 0 && k == |s.spans|
    requires forall j :: 0 <= j < |s.spans| ==> !s.spans[j].Covers(res)
    ensures forall p :: p in Live(s.bt) ==> !(p.0 <= res < p.0 + units)
    ensures Live(s.bt) == set p | p in Live(s.bt) && !(p.0 <= res < p.0 + units)
  {
    hide Agree;
    forall p | p in Live(s.bt) ensures !(p.0 <= res < p.0 + units) {
      var id :| id in s.bt && s.bt[id].busy && p == (s.bt[id].start, s.bt[id].size);
      if p.0 <= res < p.0 + units {
        OwnerAtSlot(s, units, id, res);
      }
    }
  }

  /** The slot of an address finds the live allocation whose first unit holds it, and no other. */
  lemma SlotOwner(s: State, units: nat, res: nat, k: nat)
    requires Agree(s, units, {}, {}) && units > 0 && k < |s.spans| && s.spans[k].Covers(res)
    ensures var slot := res - (res - s.spans[k].start) % units;
            && s.spans[k].start <= slot <= res < slot + units
            && forall p :: p in Live(s.bt) && p.0 <= res < p.0 + units ==> p.0 == slot && slot in s.hash
    ensures res - (res - s.spans[k].start) % units !in s.hash ==>
              Live(s.bt) == set p | p in Live(s.bt) && !(p.0 <= res < p.0 + units)
  {
    hide ListsAgree, Coalesced, Used, Tiled, Disjoint, Sorted, Complete;
    SlotFloor(s.spans[k].start, res, units);
    forall p | p in Live(s.bt) && p.0 <= res < p.0 + units
      ensures p.0 == res - (res - s.spans[k].start) % units && p.0 in s.hash
    {
      var id :| id in s.bt && s.bt[id].busy && p == (s.bt[id].start, s.bt[id].size);
      OwnerAtSlot(s, units, id, res);
      var sp :| sp in s.spans && sp.Covers(res) && res - (res - sp.start) % units == s.bt[id].start;
      var j :| 0 <= j < |s.spans| && s.spans[j] == sp;
    }
  }

  lemma ReleasedPair(s: State, units: nat, id: TagId, res: nat, k: nat)
    requires Agree(s, units, {}, {}) && units > 0 && k < |s.spans| && s.spans[k].Covers(res)
    requires var slot := res - (res - s.spans[k].start) % units; slot in s.hash && s.hash[slot] == id
    ensures id in s.bt && s.bt[id].busy && s.bt[id].start == res - (res - s.spans[k].start) % units
    ensures Live(s.bt) - {(s.bt[id].start, s.bt[id].size)} == set p | p in Live(s.bt) && !(p.0 <= res < p.0 + units)
  {
    hide ListsAgree, Coalesced, Used;
    SlotOwner(s, units, res, k);
    UniqueStart(s.bt, s.tags, id);
    forall p | p in Live(s.bt) ensures p != (s.bt[id].start, s.bt[id].size) <==> !(p.0 <= res < p.0 + units) {
    }
  }

  lemma LeftInSpan(s: State, units: nat, held: set<TagId>, seams: set<int>, i: nat, sp: Span)
    requires Agree(s, units, held, seams) && units > 0 && 0 < i < |s.tags| && Sorted(s.bt, s.tags)
    requires sp in s.spans && Inside(s.bt[s.tags[i]], sp, units) && s.bt[s.tags[i - 1]].start >= sp.start
    ensures Inside(s.bt[s.tags[i - 1]], sp, units)
  {
    hide ListsAgree, Coalesced, Used, Lookup, Geometry;
    assert s.bt[s.tags[i - 1]].start < s.bt[s.tags[i]].start;
    TagInSpan(s.bt, s.tags, s.spans, units, s.tags[i - 1], sp);
  }

  lemma RightInSpan(s: State, units: nat, held: set<TagId>, seams: set<int>, i: nat, sp: Span)
    requires Agree(s, units, held, seams) && units > 0 && i + 1 < |s.tags| && Sorted(s.bt, s.tags)
    requires sp in s.spans && Inside(s.bt[s.tags[i]], sp, units) && s.bt[s.tags[i + 1]].start < sp.End()
    ensures Inside(s.bt[s.tags[i + 1]], sp, units)
  {
    hide ListsAgree, Coalesced, Used, Lookup, Geometry;
    assert s.bt[s.tags[i]].start < s.bt[s.tags[i + 1]].start;
    TagInSpan(s.bt, s.tags, s.spans, units, s.tags[i + 1], sp);
  }

  lemma MeltReady(b: map<TagId, Tag>, c: map<TagId, Tag>, tags: seq<TagId>, i: nat, sp: Span, units: nat)
    requires SameRanges(b, c) && Sorted(b, tags) && i + 1 < |tags| && units > 0
    requires Inside(b[tags[i]], sp, units) && Inside(b[tags[i + 1]], sp, units)
    ensures Sorted(c, tags) && Inside(c[tags[i]], sp, units) && Inside(c[tags[i + 1]], sp, units)
    ensures c[tags[i]].busy == b[tags[i]].busy && c[tags[i + 1]].busy == b[tags[i + 1]].busy
    ensures c[tags[i]].End() == b[tags[i]].End() && c[tags[i + 1]].End() == b[tags[i + 1]].End()
    ensures c[tags[i]].start == b[tags[i]].start && c[tags[i + 1]].start == b[tags[i + 1]].start
    ensures tags[i] != tags[i + 1]
  {
    assert tags[i] in b && tags[i + 1] in b;
  }

  lemma MeltedFacts(s: State, units: nat, seams: set<int>, i: nat, sp: Span)
    requires i + 1 < |s.tags| && Sorted(s.bt, s.tags) && units > 0 && Agree(s, units, {s.tags[i], s.tags[i + 1]}, seams)
    requires Inside(s.bt[s.tags[i]], sp, units) && Inside(s.bt[s.tags[i + 1]], sp, units)
    requires s.bt[s.tags[i]].End() == s.bt[s.tags[i + 1]].start
    ensures var b, l := MergeTags(s.bt, s.tags[i], s.tags[i + 1]), RemoveAt(s.tags, i + 1);
            && Sorted(b, l) && i < |l| && l[i] == s.tags[i]
            && b[l[i]].busy == s.bt[s.tags[i]].busy && b[l[i]].End() == s.bt[s.tags[i + 1]].End()
            && Inside(b[l[i]], sp, units)
  {
    hide ListsAgree, Coalesced, Used, Lookup, Tiled;
    MergeKeepsList(s.bt, s.tags, i);
    AlignedSum(s.bt[s.tags[i]].size, s.bt[s.tags[i + 1]].size, units);
  }

  lemma SortedTags(bt: map<TagId, Tag>, tags: seq<TagId>, spans: seq<Span>, units: nat)
    requires units > 0 && Geometry(bt, tags, spans, units)
    ensures forall i :: 0 <= i < |tags| ==> tags[i] in bt
  {
  }

  /** A full scan of the list that finds no room shows that there is none. */
  lemma NoneFits(bt: map<TagId, Tag>, tags: seq<TagId>, spans: seq<Span>, units: nat, n: nat)
    requires units > 0 && Geometry(bt, tags, spans, units)
    requires forall j :: 0 <= j < |tags| ==> tags[j] in bt && (bt[tags[j]].busy || bt[tags[j]].size < n)
    ensures !CanHold(bt, n)
  {
    forall id | id in bt ensures bt[id].busy || bt[id].size < n {
      assert Has(tags, id);
    }
  }

  /** The slot computed for a tag's start is that start. */
  lemma StartSlot(bt: map<TagId, Tag>, tags: seq<TagId>, spans: seq<Span>, units: nat, id: TagId, k: nat)
    requires units > 0 && Geometry(bt, tags, spans, units) && id in bt && k <= |spans|
    requires k < |spans| ==> spans[k].Covers(bt[id].start)
    requires k == |spans| ==> forall j :: 0 <= j < |spans| ==> !spans[j].Covers(bt[id].start)
    ensures k < |spans| && (bt[id].start - spans[k].start) % units == 0
  {
    assert Within(bt[id], spans, units);
    var sp :| sp in spans && Inside(bt[id], sp, units);
    assert sp.Covers(bt[id].start);
    TagInSpan(bt, tags, spans, units, id, spans[k]);
  }
}
