/**
  The agreement between all views of the ranges of kernel/src/arb/arb.c, and what each step of an
  operation does to it.
 */
module ArbSteps {
  import opened Arith
  import opened Bits
  import opened Seqs
  import opened ArbGeometry
  import opened ArbViews

  /** The state that the operations rewrite. */
  datatype State = State(bt: map<TagId, Tag>, tags: seq<TagId>, spans: seq<Span>, free: seq<seq<TagId>>,
                         hash: map<nat, TagId>, usage: int)

  /** All views agree, with the tags in `held` off the free lists and free tags meeting only at `seams`. */
  ghost predicate Agree(s: State, units: nat, held: set<TagId>, seams: set<int>) {
    && units > 0
    && Geometry(s.bt, s.tags, s.spans, units)
    && ListsAgree(s.bt, s.free, units, held)
    && Coalesced(s.bt, s.spans, seams)
    && Lookup(s.bt, s.hash)
    && s.usage == Used(s.bt, s.tags)
  }

  lemma RelabelKeeps(bt: map<TagId, Tag>, bt': map<TagId, Tag>, tags: seq<TagId>, spans: seq<Span>, units: nat,
                     hash: map<nat, TagId>, seams: set<int>)
    requires units > 0 && Geometry(bt, tags, spans, units) && SameRanges(bt, bt')
    requires Coalesced(bt, spans, seams) && Lookup(bt, hash)
    ensures Geometry(bt', tags, spans, units) && Coalesced(bt', spans, seams) && Lookup(bt', hash)
    ensures Used(bt', tags) == Used(bt, tags)
    ensures Live(bt') == Live(bt)
  {
    ShapeKeepsGeometry(bt, bt', tags, spans, units);
    UsedFrame(bt, bt', tags);
  }

  /** The lookup table and the live ranges look at the allocated tags only. */
  lemma SameBusyKeeps(bt: map<TagId, Tag>, bt': map<TagId, Tag>, hash: map<nat, TagId>)
    requires forall x :: x in bt && bt[x].busy <==> x in bt' && bt'[x].busy
    requires forall x :: x in bt && bt[x].busy ==> bt'[x].start == bt[x].start && bt'[x].size == bt[x].size
    requires Lookup(bt, hash)
    ensures Lookup(bt', hash) && Live(bt') == Live(bt)
  {
    LiveByBusy(bt, bt');
  }

  lemma LiveByBusy(bt: map<TagId, Tag>, bt': map<TagId, Tag>)
    requires forall x :: x in bt && bt[x].busy <==> x in bt' && bt'[x].busy
    requires forall x :: x in bt && bt[x].busy ==> bt'[x].start == bt[x].start && bt'[x].size == bt[x].size
    ensures Live(bt') == Live(bt)
  {
    forall p ensures p in Live(bt) <==> p in Live(bt') {
      if p in Live(bt) {
        var x :| x in bt && bt[x].busy && p == (bt[x].start, bt[x].size);
        assert x in bt' && bt'[x].busy;
      }
      if p in Live(bt') {
        var x :| x in bt' && bt'[x].busy && p == (bt'[x].start, bt'[x].size);
        assert x in bt && bt[x].busy;
      }
    }
  }

  lemma SplitKeepsViews(bt: map<TagId, Tag>, tags: seq<TagId>, spans: seq<Span>, hash: map<nat, TagId>, seams: set<int>,
                        i: nat, n: nat, tmp: TagId)
    requires Sorted(bt, tags) && Coalesced(bt, spans, seams) && Lookup(bt, hash)
    requires i < |tags| && 0 < n < bt[tags[i]].size && tmp !in bt && !bt[tags[i]].busy
    ensures var bt' := SplitTags(bt, tags[i], n, tmp);
            && Coalesced(bt', spans, seams + {bt[tags[i]].start + (bt[tags[i]].size - n)})
            && Lookup(bt', hash)
            && Used(bt', InsertAt(tags, i + 1, tmp)) == Used(bt, tags)
            && Live(bt') == Live(bt)
  {
    hide Used, Coalesced, Lookup, Live, InsertAt;
    var id := tags[i];
    var bt' := SplitTags(bt, id, n, tmp);
    assert Used(bt', InsertAt(tags, i + 1, tmp)) == Used(bt, tags) by {
      UsedInsert(bt', tags, i + 1, tmp);
      UsedFrame(bt, bt', tags);
    }
    hide Sorted;
    SameBusyKeeps(bt, bt', hash);
    SplitKeepsCoalesced(bt, spans, seams, id, n, tmp);
  }

  lemma SplitKeepsCoalesced(bt: map<TagId, Tag>, spans: seq<Span>, seams: set<int>, id: TagId, n: nat, tmp: TagId)
    requires Coalesced(bt, spans, seams) && id in bt && 0 < n < bt[id].size && tmp !in bt && !bt[id].busy
    ensures Coalesced(SplitTags(bt, id, n, tmp), spans, seams + {bt[id].start + (bt[id].size - n)})
  {
    var bt' := SplitTags(bt, id, n, tmp);
    var cut := bt[id].start + (bt[id].size - n);
    forall x, y | x in bt' && y in bt' && !bt'[x].busy && !bt'[y].busy && bt'[x].End() == bt'[y].start && bt'[y].start != cut
      ensures SpanStart(spans, bt'[y].start) || bt'[y].start in seams
    {
      assert y != tmp && x != id;
      var x' := if x == tmp then id else x;
      assert bt[x'].End() == bt[y].start;
    }
  }

  /** Allocating a tag closes the seams at its two ends. */
  lemma BusyClosesSeams(bt: map<TagId, Tag>, tags: seq<TagId>, spans: seq<Span>, units: nat, seams: set<int>, id: TagId)
    requires units > 0 && Geometry(bt, tags, spans, units) && Coalesced(bt, spans, seams) && id in bt
    requires seams <= {bt[id].start, bt[id].End()}
    ensures Coalesced(bt[id := bt[id].(busy := true)], spans, {})
  {
    var bt' := bt[id := bt[id].(busy := true)];
    forall x, y | x in bt' && y in bt' && !bt'[x].busy && !bt'[y].busy && bt'[x].End() == bt'[y].start
      ensures SpanStart(spans, bt'[y].start)
    {
      assert Within(bt[x], spans, units) && Within(bt[y], spans, units) && Within(bt[id], spans, units);
      assert Apart(bt[y], bt[id]) && Apart(bt[x], bt[id]);
    }
  }

  lemma FreeKeepsViews(bt: map<TagId, Tag>, tags: seq<TagId>, spans: seq<Span>, hash: map<nat, TagId>, i: nat)
    requires Sorted(bt, tags) && Coalesced(bt, spans, {}) && Lookup(bt, hash)
    requires i < |tags| && bt[tags[i]].busy
    ensures var id := tags[i];
            var bt' := bt[id := bt[id].(busy := false)];
            && Coalesced(bt', spans, {bt[id].start, bt[id].End()})
            && Lookup(bt', hash - {bt[id].start})
            && Used(bt', tags) == Used(bt, tags) - bt[id].size
  {
    var id := tags[i];
    var bt' := bt[id := bt[id].(busy := false)];
    SortedDistinct(bt, tags);
    UsedChange(bt, bt', tags, i);
  }

  /** Freeing one tag removes exactly its pair from the live ranges. */
  lemma FreeKeepsLive(bt: map<TagId, Tag>, tags: seq<TagId>, id: TagId)
    requires Sorted(bt, tags) && Complete(bt, tags) && id in bt && bt[id].busy
    ensures Live(bt[id := bt[id].(busy := false)]) == Live(bt) - {(bt[id].start, bt[id].size)}
  {
    var bt' := bt[id := bt[id].(busy := false)];
    forall x | x in bt && x != id ensures bt[x].start != bt[id].start {
      assert Has(tags, x) && Has(tags, id);
      var i :| 0 <= i < |tags| && tags[i] == x;
      var j :| 0 <= j < |tags| && tags[j] == id;
    }
    forall p ensures p in Live(bt') <==> p in Live(bt) && p != (bt[id].start, bt[id].size) {
      if p in Live(bt) && p != (bt[id].start, bt[id].size) {
        var x :| x in bt && bt[x].busy && p == (bt[x].start, bt[x].size);
        assert x in bt' && bt'[x].busy;
      }
    }
  }

  lemma MergeKeepsViews(bt: map<TagId, Tag>, tags: seq<TagId>, spans: seq<Span>, hash: map<nat, TagId>,
                        seams: set<int>, i: nat)
    requires Sorted(bt, tags) && Coalesced(bt, spans, seams) && Lookup(bt, hash) && i + 1 < |tags|
    requires !bt[tags[i]].busy && !bt[tags[i + 1]].busy && bt[tags[i]].End() == bt[tags[i + 1]].start
    ensures var bt' := MergeTags(bt, tags[i], tags[i + 1]);
            && Coalesced(bt', spans, seams)
            && Lookup(bt', hash)
            && Used(bt', RemoveAt(tags, i + 1)) == Used(bt, tags)
            && Live(bt') == Live(bt)
  {
    var x, y := tags[i], tags[i + 1];
    var bt' := MergeTags(bt, x, y);
    UsedRemove(bt, tags, i + 1);
    UsedFrame(bt, bt', RemoveAt(tags, i + 1));
    SameBusyKeeps(bt, bt', hash);
    assert Coalesced(bt', spans, seams) by {
      forall u, v | u in bt' && v in bt' && !bt'[u].busy && !bt'[v].busy && bt'[u].End() == bt'[v].start
        ensures SpanStart(spans, bt'[v].start) || bt'[v].start in seams
      {
        var u' := if u == x then y else u;
        assert bt[u'].End() == bt[v].start;
      }
    }
  }

  /** A seam where no two free tags meet can be dropped. */
  lemma SeamClosed(bt: map<TagId, Tag>, spans: seq<Span>, seams: set<int>, a: int)
    requires Coalesced(bt, spans, seams)
    requires !SpanStart(spans, a) ==>
      forall x, y :: x in bt && y in bt && !bt[x].busy && !bt[y].busy && bt[x].End() == bt[y].start ==> bt[y].start != a
    ensures Coalesced(bt, spans, seams - {a})
  {
  }

  // ---------- Steps of the operations ----------

  /** rem_freelist. */
  lemma UnlinkStep(s: State, units: nat, held: set<TagId>, seams: set<int>, id: TagId)
    requires Agree(s, units, held, seams) && id in s.bt
    ensures -1 <= s.bt[id].fl < |s.free|
    ensures var (f, b) := Unlinked(s.bt, s.free, id);
            Agree(s.(bt := b, free := f), units, held + {id}, seams) && SameRanges(s.bt, b) && Live(b) == Live(s.bt)
  {
    hide Geometry, ListsAgree, Coalesced, Lookup, Used, Live, SameRanges;
    UnlinkAgrees(s.bt, s.free, units, held, id);
    RelabelKeeps(s.bt, Unlinked(s.bt, s.free, id).1, s.tags, s.spans, units, s.hash, seams);
  }

  /** add_freelist. */
  lemma LinkStep(s: State, units: nat, held: set<TagId>, seams: set<int>, id: TagId)
    requires Agree(s, units, held, seams) && id in s.bt && id in held && !s.bt[id].busy
    ensures var (f, b) := Linked(s.bt, s.free, units, id);
            Agree(s.(bt := b, free := f), units, held - {id}, seams) && SameRanges(s.bt, b) && Live(b) == Live(s.bt)
  {
    hide Geometry, ListsAgree, Coalesced, Lookup, Used, Live, HighBit, SameRanges;
    TagHoldsUnit(s.bt, s.tags, s.spans, units, id);
    LinkAgrees(s.bt, s.free, units, held, id);
    RelabelKeeps(s.bt, Linked(s.bt, s.free, units, id).1, s.tags, s.spans, units, s.hash, seams);
  }

  lemma TagHoldsUnit(bt: map<TagId, Tag>, tags: seq<TagId>, spans: seq<Span>, units: nat, id: TagId)
    requires units > 0 && Geometry(bt, tags, spans, units) && id in bt
    ensures bt[id].size >= units
  {
    assert Within(bt[id], spans, units);
    MultipleAtLeast(bt[id].size, units);
  }

  lemma MultipleAtLeast(n: nat, u: nat)
    requires u > 0 && n > 0 && n % u == 0
    ensures n >= u
  {
  }

  /** The truncation and insertion of arb_al_splittag, between its two free-list edits. */
  lemma SplitStep(s: State, units: nat, seams: set<int>, i: nat, n: nat, tmp: TagId)
    requires i < |s.tags| && s.tags[i] in s.bt && Agree(s, units, {s.tags[i]}, seams) && Sorted(s.bt, s.tags)
    requires !s.bt[s.tags[i]].busy && 0 < n < s.bt[s.tags[i]].size && n % units == 0 && tmp !in s.bt
    ensures var b := SplitTags(s.bt, s.tags[i], n, tmp);
            && Agree(s.(bt := b, tags := InsertAt(s.tags, i + 1, tmp)), units, {s.tags[i], tmp}, seams + {s.bt[s.tags[i]].End() - n})
            && Live(b) == Live(s.bt)
  {
    hide Geometry, ListsAgree, Coalesced, Lookup, Used, Live, Sorted, SplitTags, InsertAt;
    var id := s.tags[i];
    var b, l := SplitTags(s.bt, id, n, tmp), InsertAt(s.tags, i + 1, tmp);
    assert Geometry(b, l, s.spans, units) by {
      SplitKeepsGeometry(s.bt, s.tags, s.spans, units, i, n, tmp);
    }
    assert ListsAgree(b, s.free, units, {id, tmp}) by {
      SplitKeepsLists(s.bt, s.free, units, id, n, tmp);
    }
    SplitKeepsViews(s.bt, s.tags, s.spans, s.hash, seams, i, n, tmp);
  }

  lemma SameRangesTransitive(a: map<TagId, Tag>, b: map<TagId, Tag>, c: map<TagId, Tag>)
    requires SameRanges(a, b) && SameRanges(b, c)
    ensures SameRanges(a, c)
  {
  }

  lemma SameRangesAt(a: map<TagId, Tag>, b: map<TagId, Tag>, id: TagId)
    requires SameRanges(a, b)
    ensures id in a <==> id in b
    ensures id in a ==> b[id].start == a[id].start && b[id].size == a[id].size && b[id].busy == a[id].busy
  {
  }

  // ---------- Marking a tag allocated ----------

  function Marked(s: State, id: TagId): State
    requires id in s.bt
  {
    s.(bt := s.bt[id := s.bt[id].(busy := true)], hash := s.hash[s.bt[id].start := id], usage := s.usage + s.bt[id].size)
  }

  lemma BusyStep(s: State, units: nat, seams: set<int>, id: TagId)
    requires id in s.bt && !s.bt[id].busy && seams <= {s.bt[id].start, s.bt[id].End()}
    requires Agree(s, units, {id}, seams)
    ensures Agree(Marked(s, id), units, {}, {})
    ensures Live(Marked(s, id).bt) == Live(s.bt) + {(s.bt[id].start, s.bt[id].size)}
  {
    hide Geometry, ListsAgree, Coalesced, Used, Live, Lookup;
    var b := s.bt[id := s.bt[id].(busy := true)];
    BusyClosesSeams(s.bt, s.tags, s.spans, units, seams, id);
    BusyKeepsGeometry(s.bt, s.tags, s.spans, units, id);
    BusyKeepsLists(s.bt, s.free, units, id);
    BusyKeepsViews(s.bt, s.tags, s.spans, units, s.hash, id);
  }

  lemma BusyKeepsGeometry(bt: map<TagId, Tag>, tags: seq<TagId>, spans: seq<Span>, units: nat, id: TagId)
    requires units > 0 && id in bt && Geometry(bt, tags, spans, units)
    ensures Geometry(bt[id := bt[id].(busy := true)], tags, spans, units)
    ensures Geometry(bt[id := bt[id].(busy := false)], tags, spans, units)
  {
    hide Geometry;
    ShapeKeepsGeometry(bt, bt[id := bt[id].(busy := true)], tags, spans, units);
    ShapeKeepsGeometry(bt, bt[id := bt[id].(busy := false)], tags, spans, units);
  }

  lemma BusyKeepsLists(bt: map<TagId, Tag>, free: seq<seq<TagId>>, units: nat, id: TagId)
    requires units > 0 && id in bt && ListsAgree(bt, free, units, {id})
    ensures ListsAgree(bt[id := bt[id].(busy := true)], free, units, {})
  {
    var b := bt[id := bt[id].(busy := true)];
    HeldMayChange(bt, free, units, {id}, b, {id});
    BusyIsOffLists(b, free, units, {id}, id);
    assert {id} - {id} == {};
  }

  lemma BusyKeepsViews(bt: map<TagId, Tag>, tags: seq<TagId>, spans: seq<Span>, units: nat, hash: map<nat, TagId>,
                       id: TagId)
    requires units > 0 && Geometry(bt, tags, spans, units) && Lookup(bt, hash) && id in bt && !bt[id].busy
    ensures var b := bt[id := bt[id].(busy := true)];
            && Lookup(b, hash[bt[id].start := id])
            && Used(b, tags) == Used(bt, tags) + bt[id].size
            && Live(b) == Live(bt) + {(bt[id].start, bt[id].size)}
  {
    hide Used, Live, Disjoint, Tiled, SpansOrdered;
    var b := bt[id := bt[id].(busy := true)];
    UniqueStart(bt, tags, id);
    BusyAddsLive(bt, id);
    assert Lookup(b, hash[bt[id].start := id]);
    hide Lookup;
    assert Has(tags, id);
    var i :| 0 <= i < |tags| && tags[i] == id;
    SortedDistinct(bt, tags);
    hide Sorted, Complete;
    UsedChange(bt, b, tags, i);
  }

  lemma BusyAddsLive(bt: map<TagId, Tag>, id: TagId)
    requires id in bt && !bt[id].busy
    ensures Live(bt[id := bt[id].(busy := true)]) == Live(bt) + {(bt[id].start, bt[id].size)}
  {
    var b := bt[id := bt[id].(busy := true)];
    forall p ensures p in Live(b) <==> p in Live(bt) || p == (bt[id].start, bt[id].size) {
      if p in Live(bt) {
        var x :| x in bt && bt[x].busy && p == (bt[x].start, bt[x].size);
        assert x in b && b[x].busy;
      }
      assert b[id].busy;
    }
  }

  lemma UniqueStart(bt: map<TagId, Tag>, tags: seq<TagId>, id: TagId)
    requires Sorted(bt, tags) && Complete(bt, tags) && id in bt
    ensures forall x :: x in bt && x != id ==> bt[x].start != bt[id].start
  {
    forall x | x in bt && x != id ensures bt[x].start != bt[id].start {
      assert Has(tags, x) && Has(tags, id);
      var i :| 0 <= i < |tags| && tags[i] == x;
      var j :| 0 <= j < |tags| && tags[j] == id;
    }
  }

  // ---------- Freeing a tag and melting it back in ----------

  function Freed(s: State, id: TagId): State
    requires id in s.bt
  {
    s.(bt := s.bt[id := s.bt[id].(busy := false)], hash := s.hash - {s.bt[id].start}, usage := s.usage - s.bt[id].size)
  }

  lemma FreeStep(s: State, units: nat, i: nat)
    requires i < |s.tags| && s.tags[i] in s.bt && s.bt[s.tags[i]].busy && Agree(s, units, {}, {})
    ensures var id := s.tags[i];
            && Agree(Freed(s, id), units, {id}, {s.bt[id].start, s.bt[id].End()})
            && Live(Freed(s, id).bt) == Live(s.bt) - {(s.bt[id].start, s.bt[id].size)}
  {
    hide ListsAgree, Coalesced, Used, Live, Lookup, Sorted, Complete, Disjoint, Tiled;
    var id := s.tags[i];
    FreeKeepsViews(s.bt, s.tags, s.spans, s.hash, i);
    FreeKeepsLive(s.bt, s.tags, id);
    hide Geometry;
    BusyKeepsGeometry(s.bt, s.tags, s.spans, units, id);
    FreeKeepsLists(s.bt, s.free, units, id);
  }

  lemma FreeKeepsLists(bt: map<TagId, Tag>, free: seq<seq<TagId>>, units: nat, id: TagId)
    requires units > 0 && id in bt && bt[id].busy && ListsAgree(bt, free, units, {})
    ensures ListsAgree(bt[id := bt[id].(busy := false)], free, units, {id})
  {
    BusyIsOffLists(bt, free, units, {}, id);
    assert {} + {id} == {id};
    HeldMayChange(bt, free, units, {id}, bt[id := bt[id].(busy := false)], {id});
  }

  function Melted(s: State, i: nat): State
    requires i + 1 < |s.tags| && s.tags[i] in s.bt && s.tags[i + 1] in s.bt
  {
    s.(bt := MergeTags(s.bt, s.tags[i], s.tags[i + 1]), tags := RemoveAt(s.tags, i + 1))
  }

  /** Melting two free neighbours of one span closes the seam between them. */
  lemma MeltStep(s: State, units: nat, seams: set<int>, i: nat, sp: Span)
    requires i + 1 < |s.tags| && s.tags[i] in s.bt && s.tags[i + 1] in s.bt && units > 0
    requires !s.bt[s.tags[i]].busy && !s.bt[s.tags[i + 1]].busy && s.tags[i] != s.tags[i + 1]
    requires sp in s.spans && Inside(s.bt[s.tags[i]], sp, units) && Inside(s.bt[s.tags[i + 1]], sp, units)
    requires Agree(s, units, {s.tags[i], s.tags[i + 1]}, seams) && Sorted(s.bt, s.tags)
    ensures s.bt[s.tags[i]].End() == s.bt[s.tags[i + 1]].start
    ensures Agree(Melted(s, i), units, {s.tags[i]}, seams - {s.bt[s.tags[i + 1]].start})
    ensures Live(Melted(s, i).bt) == Live(s.bt)
  {
    hide Geometry, ListsAgree, Coalesced, Used, Live, Lookup, Sorted, MergeTags, RemoveAt, Inside;
    NeighboursTouch(s.bt, s.tags, s.spans, units, i, sp);
    var x, y := s.tags[i], s.tags[i + 1];
    var b, l := MergeTags(s.bt, x, y), RemoveAt(s.tags, i + 1);
    assert Geometry(b, l, s.spans, units) by { MergeKeepsGeometry(s.bt, s.tags, s.spans, units, i, sp); }
    assert ListsAgree(b, s.free, units, {x}) by { MergeKeepsLists(s.bt, s.free, units, x, y); }
    MergeKeepsViews(s.bt, s.tags, s.spans, s.hash, seams, i);
    MeltClosesSeam(s.bt, s.tags, s.spans, units, seams, x, y);
  }

  lemma MeltClosesSeam(bt: map<TagId, Tag>, tags: seq<TagId>, spans: seq<Span>, units: nat, seams: set<int>, x: TagId,
                       y: TagId)
    requires units > 0 && Geometry(bt, tags, spans, units) && x in bt && y in bt && x != y
    requires Coalesced(MergeTags(bt, x, y), spans, seams)
    ensures Coalesced(MergeTags(bt, x, y), spans, seams - {bt[y].start})
  {
    hide Coalesced;
    UniqueStart(bt, tags, y);
    SeamClosed(MergeTags(bt, x, y), spans, seams, bt[y].start);
  }

  /** Where arb_free does not melt to the left, the left seam is no seam. */
  lemma LeftSeamClosed(s: State, units: nat, held: set<TagId>, seams: set<int>, i: nat, sp: Span)
    requires i < |s.tags| && s.tags[i] in s.bt && Agree(s, units, held, seams) && Sorted(s.bt, s.tags)
    requires sp in s.spans && sp.Covers(s.bt[s.tags[i]].start)
    requires !(i > 0 && !s.bt[s.tags[i - 1]].busy && s.bt[s.tags[i - 1]].start >= sp.start)
    ensures Agree(s, units, held, seams - {s.bt[s.tags[i]].start})
  {
    hide ListsAgree, Coalesced, Used, Lookup, Tiled;
    var a := s.bt[s.tags[i]].start;
    if !SpanStart(s.spans, a) {
      forall x, y | x in s.bt && y in s.bt && !s.bt[x].busy && !s.bt[y].busy && s.bt[x].End() == s.bt[y].start
        ensures s.bt[y].start != a
      {
        if s.bt[y].start == a {
          TagPositive(s.bt, s.tags, s.spans, units, x);
          OnlyPredecessorTouches(s.bt, s.tags, i, x);
          assert sp.start < a;
          TouchingInSpan(s.bt, s.tags, s.spans, units, x, sp);
        }
      }
    }
    SeamClosed(s.bt, s.spans, seams, a);
  }

  lemma TagPositive(bt: map<TagId, Tag>, tags: seq<TagId>, spans: seq<Span>, units: nat, id: TagId)
    requires units > 0 && Geometry(bt, tags, spans, units) && id in bt
    ensures bt[id].size > 0
  {
    assert Within(bt[id], spans, units);
  }

  /** Where arb_free does not melt to the right, the right seam is no seam. */
  lemma RightSeamClosed(s: State, units: nat, held: set<TagId>, seams: set<int>, i: nat, sp: Span)
    requires i < |s.tags| && s.tags[i] in s.bt && Agree(s, units, held, seams) && Sorted(s.bt, s.tags)
    requires sp in s.spans && units > 0 && Inside(s.bt[s.tags[i]], sp, units)
    requires !(i + 1 < |s.tags| && !s.bt[s.tags[i + 1]].busy && s.bt[s.tags[i + 1]].start < sp.End())
    ensures Agree(s, units, held, seams - {s.bt[s.tags[i]].End()})
  {
    hide ListsAgree, Coalesced, Used, Lookup, Tiled;
    var id, a := s.tags[i], s.bt[s.tags[i]].End();
    if !SpanStart(s.spans, a) {
      forall x, y | x in s.bt && y in s.bt && !s.bt[x].busy && !s.bt[y].busy && s.bt[x].End() == s.bt[y].start
        ensures s.bt[y].start != a
      {
        if s.bt[y].start == a {
          SuccessorTouches(s.bt, s.tags, s.spans, units, i, y);
          StartsAtSpanEnd(s.bt, s.tags, s.spans, units, y, sp);
        }
      }
    }
    SeamClosed(s.bt, s.spans, seams, a);
  }

  lemma SuccessorTouches(bt: map<TagId, Tag>, tags: seq<TagId>, spans: seq<Span>, units: nat, i: nat, y: TagId)
    requires units > 0 && Geometry(bt, tags, spans, units)
    requires i < |tags| && tags[i] in bt && y in bt && bt[tags[i]].End() == bt[y].start
    ensures i + 1 < |tags| && tags[i + 1] == y
  {
    TagPositive(bt, tags, spans, units, tags[i]);
    assert Has(tags, y);
    var k :| 0 <= k < |tags| && tags[k] == y;
    OnlyPredecessorTouches(bt, tags, k, tags[i]);
    SortedDistinct(bt, tags);
  }

  lemma StartsAtSpanEnd(bt: map<TagId, Tag>, tags: seq<TagId>, spans: seq<Span>, units: nat, y: TagId, sp: Span)
    requires units > 0 && Geometry(bt, tags, spans, units) && y in bt && sp in spans && bt[y].start == sp.End()
    ensures SpanStart(spans, sp.End())
  {
    assert Within(bt[y], spans, units);
    var sp' :| sp' in spans && Inside(bt[y], sp', units);
    var k :| 0 <= k < |spans| && spans[k] == sp;
    var k' :| 0 <= k' < |spans| && spans[k'] == sp';
  }

  lemma SplitFacts(bt: map<TagId, Tag>, id: TagId, n: nat, tmp: TagId)
    requires id in bt && n <= bt[id].size && tmp !in bt
    ensures var b := SplitTags(bt, id, n, tmp);
            id in b && tmp in b && b[tmp] == Tag(bt[id].End() - n, n, false, -1) && b[id] == bt[id].(size := bt[id].size - n)
  {
  }

  // ---------- Adding a range ----------

  /** The new state after arb_add_range, before the new tag joins its free list. */
  function Added(s: State, k: nat, i: nat, sp: Span, id: TagId): State
    requires k <= |s.spans| && i <= |s.tags|
  {
    s.(spans := InsertAt(s.spans, k, sp), tags := InsertAt(s.tags, i, id),
       bt := s.bt[id := Tag(sp.start, sp.size, false, -1)])
  }

  /** The new span overlaps no old one, and `k` is its place in address order. */
  ghost predicate SpanFits(spans: seq<Span>, k: nat, sp: Span) {
    && k <= |spans| && sp.size > 0
    && (forall j :: 0 <= j < k ==> spans[j].End() <= sp.start)
    && (forall j :: k <= j < |spans| ==> sp.End() <= spans[j].start)
  }

  ghost predicate TagFits(bt: map<TagId, Tag>, tags: seq<TagId>, i: nat, a: nat) {
    && i <= |tags|
    && (forall j :: 0 <= j < i ==> tags[j] in bt && bt[tags[j]].start < a)
    && (forall j :: i <= j < |tags| ==> tags[j] in bt && bt[tags[j]].start > a)
  }

  lemma AddStep(s: State, units: nat, k: nat, i: nat, sp: Span, id: TagId)
    requires Agree(s, units, {}, {}) && id !in s.bt && units > 0 && sp.size % units == 0
    requires SpanFits(s.spans, k, sp) && TagFits(s.bt, s.tags, i, sp.start) && k <= |s.spans| && i <= |s.tags|
    ensures Agree(Added(s, k, i, sp, id), units, {id}, {})
    ensures Live(Added(s, k, i, sp, id).bt) == Live(s.bt)
  {
    hide Geometry, ListsAgree, Coalesced, Used, Live, Lookup, InsertAt, SpanFits, TagFits;
    AddKeepsGeometry(s.bt, s.tags, s.spans, units, k, i, sp, id);
    AddKeepsLists(s.bt, s.free, units, sp, id);
    AddKeepsCoalesced(s.bt, s.tags, s.spans, units, k, sp, id);
    AddKeepsViews(s.bt, s.tags, s.hash, i, sp, id);
  }

  lemma AddKeepsLists(bt: map<TagId, Tag>, free: seq<seq<TagId>>, units: nat, sp: Span, id: TagId)
    requires units > 0 && ListsAgree(bt, free, units, {}) && id !in bt
    ensures ListsAgree(bt[id := Tag(sp.start, sp.size, false, -1)], free, units, {id})
  {
    HeldMayChange(bt, free, units, {}, bt[id := Tag(sp.start, sp.size, false, -1)], {id});
  }

  lemma AddKeepsViews(bt: map<TagId, Tag>, tags: seq<TagId>, hash: map<nat, TagId>, i: nat, sp: Span, id: TagId)
    requires Lookup(bt, hash) && id !in bt && i <= |tags|
    ensures var b := bt[id := Tag(sp.start, sp.size, false, -1)];
            Lookup(b, hash) && Used(b, InsertAt(tags, i, id)) == Used(bt, tags) && Live(b) == Live(bt)
  {
    hide Used, Live;
    var b := bt[id := Tag(sp.start, sp.size, false, -1)];
    SameBusyKeeps(bt, b, hash);
    UsedInsert(b, tags, i, id);
    UsedFrame(bt, b, tags);
  }

  lemma AddKeepsGeometry(bt: map<TagId, Tag>, tags: seq<TagId>, spans: seq<Span>, units: nat, k: nat, i: nat, sp: Span,
                         id: TagId)
    requires units > 0 && Geometry(bt, tags, spans, units) && id !in bt && sp.size % units == 0
    requires SpanFits(spans, k, sp) && TagFits(bt, tags, i, sp.start)
    ensures Geometry(bt[id := Tag(sp.start, sp.size, false, -1)], InsertAt(tags, i, id), InsertAt(spans, k, sp), units)
  {
    hide Tiled, Disjoint, Complete, Sorted, SpansOrdered, InsertAt;
    AddKeepsSpans(spans, k, sp);
    AddKeepsList(bt, tags, i, sp, id);
    AddKeepsDisjoint(bt, spans, units, k, sp, id);
    AddKeepsTiling(bt, spans, units, k, sp, id);
  }

  lemma AddKeepsSpans(spans: seq<Span>, k: nat, sp: Span)
    requires SpansOrdered(spans) && SpanFits(spans, k, sp)
    ensures SpansOrdered(InsertAt(spans, k, sp))
  {
  }

  lemma AddKeepsList(bt: map<TagId, Tag>, tags: seq<TagId>, i: nat, sp: Span, id: TagId)
    requires Sorted(bt, tags) && Complete(bt, tags) && id !in bt && TagFits(bt, tags, i, sp.start)
    ensures Sorted(bt[id := Tag(sp.start, sp.size, false, -1)], InsertAt(tags, i, id))
    ensures Complete(bt[id := Tag(sp.start, sp.size, false, -1)], InsertAt(tags, i, id))
  {
    var b, l := bt[id := Tag(sp.start, sp.size, false, -1)], InsertAt(tags, i, id);
    InsertContents(tags, i, id);
    forall x | x in b ensures Has(l, x) {
      assert x == id || Has(tags, x);
    }
  }

  /** A tag of another span is apart from the new span. */
  lemma AddKeepsDisjoint(bt: map<TagId, Tag>, spans: seq<Span>, units: nat, k: nat, sp: Span, id: TagId)
    requires units > 0 && Disjoint(bt) && Tiled(bt, spans, units) && id !in bt && SpanFits(spans, k, sp)
    ensures Disjoint(bt[id := Tag(sp.start, sp.size, false, -1)])
  {
    forall x | x in bt ensures Apart(bt[x], Tag(sp.start, sp.size, false, -1)) {
      assert Within(bt[x], spans, units);
    }
  }

  lemma AddKeepsTiling(bt: map<TagId, Tag>, spans: seq<Span>, units: nat, k: nat, sp: Span, id: TagId)
    requires units > 0 && Tiled(bt, spans, units) && id !in bt && sp.size % units == 0 && SpanFits(spans, k, sp)
    ensures Tiled(bt[id := Tag(sp.start, sp.size, false, -1)], InsertAt(spans, k, sp), units)
  {
    var b, l := bt[id := Tag(sp.start, sp.size, false, -1)], InsertAt(spans, k, sp);
    InsertContents(spans, k, sp);
    forall x | x in b ensures Within(b[x], l, units) {
      if x == id {
        assert Inside(b[id], sp, units);
      } else {
        assert Within(bt[x], spans, units);
      }
    }
    forall j, a: int | 0 <= j < |l| && l[j].Covers(a) ensures Covered(b, a) {
      if j == k {
        assert b[id].Covers(a);
      } else {
        assert l[j] == spans[if j < k then j else j - 1];
        assert Covered(bt, a);
        var x :| x in bt && bt[x].Covers(a);
        assert b[x].Covers(a);
      }
    }
  }

  lemma AddKeepsCoalesced(bt: map<TagId, Tag>, tags: seq<TagId>, spans: seq<Span>, units: nat, k: nat, sp: Span,
                          id: TagId)
    requires units > 0 && Geometry(bt, tags, spans, units) && Coalesced(bt, spans, {}) && id !in bt
    requires SpanFits(spans, k, sp)
    ensures Coalesced(bt[id := Tag(sp.start, sp.size, false, -1)], InsertAt(spans, k, sp), {})
  {
    var b, l := bt[id := Tag(sp.start, sp.size, false, -1)], InsertAt(spans, k, sp);
    InsertContents(spans, k, sp);
    forall x, y | x in b && y in b && !b[x].busy && !b[y].busy && b[x].End() == b[y].start
      ensures SpanStart(l, b[y].start)
    {
      if y == id {
        assert sp in l && sp.start == b[y].start;
      } else if x == id {
        assert Within(bt[y], spans, units);
        var sp' :| sp' in spans && Inside(bt[y], sp', units);
        assert sp' in l && sp'.start == sp.End();
      } else {
        assert SpanStart(spans, bt[y].start);
        var sp' :| sp' in spans && sp'.start == bt[y].start;
        assert sp' in l;
      }
    }
  }
}
