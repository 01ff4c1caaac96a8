/**
  The steps of kernel/src/arb/arb.c as the code takes them, on tags that its callers should not
  hand to them: a tag that is allocated, a size that is no number of units. Only the order of the
  tag list survives there; the other views of the ranges fall apart.
 */
module ArbRaw {
  import opened Arith
  import opened Bits
  import opened Seqs
  import opened ArbGeometry
  import opened ArbViews
  import opened ArbSteps

  /** Every indicator names a free list or none. */
  ghost predicate InRange(bt: map<TagId, Tag>, free: seq<seq<TagId>>) {
    forall id :: id in bt ==> -1 <= bt[id].fl < |free|
  }

  /** The list holds every tag once, in address order, and the tags share no address. */
  ghost predicate Listed(bt: map<TagId, Tag>, tags: seq<TagId>) {
    Sorted(bt, tags) && Complete(bt, tags) && Disjoint(bt)
  }

  lemma AgreeRaw(s: State, units: nat, held: set<TagId>, seams: set<int>)
    requires Agree(s, units, held, seams)
    ensures InRange(s.bt, s.free) && Listed(s.bt, s.tags) && s.usage == Used(s.bt, s.tags)
  {
    hide Coalesced, Lookup, Used, HighBit, Tiled, Sorted, Complete, Disjoint;
  }

  lemma UnlinkRaw(bt: map<TagId, Tag>, free: seq<seq<TagId>>, id: TagId)
    requires id in bt && InRange(bt, free)
    ensures var (f, b) := Unlinked(bt, free, id); InRange(b, f) && SameRanges(bt, b) && Live(b) == Live(bt)
  {
  }

  lemma LinkRaw(bt: map<TagId, Tag>, free: seq<seq<TagId>>, units: nat, id: TagId)
    requires units > 0 && id in bt && InRange(bt, free)
    ensures var (f, b) := Linked(bt, free, units, id); InRange(b, f) && SameRanges(bt, b) && Live(b) == Live(bt)
  {
    hide HighBit;
  }

  /** Order and usage look at ranges and states only. */
  lemma RelabelRaw(bt: map<TagId, Tag>, bt': map<TagId, Tag>, tags: seq<TagId>)
    requires SameRanges(bt, bt') && Listed(bt, tags)
    ensures Listed(bt', tags) && Used(bt', tags) == Used(bt, tags)
  {
    UsedFrame(bt, bt', tags);
  }

  /** Cutting a tag in two keeps the order; what is cut off an allocated tag is no longer in use. */
  lemma SplitRaw(bt: map<TagId, Tag>, tags: seq<TagId>, i: nat, n: nat, tmp: TagId)
    requires Listed(bt, tags) && i < |tags| && 0 < n < bt[tags[i]].size && tmp !in bt
    ensures var b, l := SplitTags(bt, tags[i], n, tmp), InsertAt(tags, i + 1, tmp);
            Listed(b, l) && Used(b, l) == Used(bt, tags) - (if bt[tags[i]].busy then n else 0)
  {
    var b := SplitTags(bt, tags[i], n, tmp);
    SplitKeepsList(bt, tags, i, n, tmp);
    SplitKeepsDisjoint(bt, tags[i], n, tmp);
    SortedDistinct(bt, tags);
    hide Sorted, Complete, Disjoint, InsertAt, Used;
    UsedInsert(b, tags, i + 1, tmp);
    UsedChange(bt, b, tags, i);
  }

  /** Marking a tag that is allocated already adds nothing to what is in use. */
  lemma MarkRaw(bt: map<TagId, Tag>, tags: seq<TagId>, id: TagId)
    requires Listed(bt, tags) && id in bt
    ensures Used(bt[id := bt[id].(busy := true)], tags) == Used(bt, tags) + (if bt[id].busy then 0 else bt[id].size)
  {
    assert Has(tags, id);
    var i :| 0 <= i < |tags| && tags[i] == id;
    SortedDistinct(bt, tags);
    hide Sorted, Complete, Disjoint, Used;
    UsedChange(bt, bt[id := bt[id].(busy := true)], tags, i);
  }

  /** A tag smaller than a unit fits into no agreeing state. */
  lemma SmallTagDisagrees(s: State, units: nat, id: TagId)
    requires units > 0 && id in s.bt && s.bt[id].size < units
    ensures !Agree(s, units, {}, {})
  {
    if Agree(s, units, {}, {}) {
      TagHoldsUnit(s.bt, s.tags, s.spans, units, id);
    }
  }

  /** Neither does a tag that starts between two units of the tag that lay there before. */
  lemma OddTagDisagrees(s: State, s': State, units: nat, id: TagId, x: TagId)
    requires Agree(s, units, {}, {}) && id in s.bt && s'.spans == s.spans && x in s'.bt
    requires s.bt[id].start <= s'.bt[x].start < s.bt[id].End() && (s'.bt[x].start - s.bt[id].start) % units != 0
    ensures !Agree(s', units, {}, {})
  {
    hide ListsAgree, Coalesced, Lookup, Used;
    assert Within(s.bt[id], s.spans, units);
    var sp :| sp in s.spans && Inside(s.bt[id], sp, units);
    if Agree(s', units, {}, {}) {
      TagInSpan(s'.bt, s'.tags, s'.spans, units, x, sp);
      AlignedSum(s'.bt[x].start - sp.start, s.bt[id].start - sp.start, units);
    }
  }

  /** Cutting a free tag changes no live range. */
  lemma SplitLive(bt: map<TagId, Tag>, id: TagId, n: nat, tmp: TagId)
    requires id in bt && !bt[id].busy && n <= bt[id].size && tmp !in bt
    ensures Live(SplitTags(bt, id, n, tmp)) == Live(bt)
  {
    LiveByBusy(bt, SplitTags(bt, id, n, tmp));
  }

  lemma LiveSame(bt: map<TagId, Tag>, bt': map<TagId, Tag>)
    requires SameRanges(bt, bt')
    ensures Live(bt') == Live(bt)
  {
    LiveByBusy(bt, bt');
  }

  // ---------- The split in 32-bit arithmetic ----------

  lemma Split32Facts(bt: map<TagId, Tag>, id: TagId, n: nat, tmp: TagId)
    requires id in bt && tmp !in bt
    ensures var b := Split32(bt, id, n, tmp);
            && id in b && tmp in b && b[id] == bt[id].(size := (bt[id].size - n) % TWO32)
            && b[tmp] == Tag((bt[id].start + (bt[id].size - n) % TWO32) % TWO32, n, false, -1)
    ensures forall x :: x in Split32(bt, id, n, tmp) <==> x in bt || x == tmp
  {
  }

  lemma Split32SameRanges(bt: map<TagId, Tag>, bt': map<TagId, Tag>, id: TagId, n: nat, tmp: TagId)
    requires SameRanges(bt, bt') && id in bt && tmp !in bt
    ensures SameRanges(Split32(bt, id, n, tmp), Split32(bt', id, n, tmp))
  {
  }

  lemma Split32InRange(bt: map<TagId, Tag>, free: seq<seq<TagId>>, id: TagId, n: nat, tmp: TagId)
    requires InRange(bt, free) && id in bt && tmp !in bt
    ensures InRange(Split32(bt, id, n, tmp), free)
  {
  }

  lemma InsertKeeps(tags: seq<TagId>, i: nat, x: TagId)
    requires i <= |tags|
    ensures Has(InsertAt(tags, i, x), x) && forall y :: Has(tags, y) ==> Has(InsertAt(tags, i, x), y)
  {
    InsertContents(tags, i, x);
  }

  /** Where the second cut of arb_reserve puts the range: at its position, whatever wrapped before. */
  lemma CutPosition(start: nat, size: nat, res: nat, n: nat)
    requires start < TWO32 && size < TWO32 && res < TWO32 && n < TWO32 && (start + size) % TWO32 == (res + n) % TWO32
    ensures (start + (size - n) % TWO32) % TWO32 == res
    ensures start == res ==> size == n
  {
  }

  /** What is left of a tag after the first cut ends where the range ends, whatever wraps. */
  lemma CutEnd(start: nat, size: nat, res: nat, n: nat)
    requires start < TWO32 && size < TWO32 && res < TWO32 && n < TWO32
    ensures var diff := (start + size - (res + n)) % TWO32;
            (start + (size - diff) % TWO32) % TWO32 == (res + n) % TWO32
  {
  }

  /**
    A tag of a size that is no positive number of units, or that leaves the address space, fits into no
    agreeing state.
   */
  lemma OddSizeDisagrees(s: State, units: nat, x: TagId)
    requires units > 0 && x in s.bt && (s.bt[x].size == 0 || s.bt[x].size % units != 0 || s.bt[x].End() >= TWO32)
    requires forall sp :: sp in s.spans ==> sp.End() < TWO32
    ensures !Agree(s, units, {}, {})
  {
    if Agree(s, units, {}, {}) {
      TagShape(s.bt, s.tags, s.spans, units, x);
    }
  }

  lemma TagShape(bt: map<TagId, Tag>, tags: seq<TagId>, spans: seq<Span>, units: nat, x: TagId)
    requires units > 0 && Geometry(bt, tags, spans, units) && x in bt
    ensures bt[x].size > 0 && bt[x].size % units == 0 && exists sp :: sp in spans && bt[x].End() <= sp.End()
  {
    hide Sorted, Complete, Disjoint, SpansOrdered;
    assert Within(bt[x], spans, units);
  }
}
