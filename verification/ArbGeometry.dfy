/**
  The boundary-tag range allocator of kernel/src/arb/arb.c.

  A tag record is named by an identifier that plays the part of its pointer. Four views of the
  same set of ranges are kept, as in the source: the tag records, the address-ordered tag list,
  the power-of-two free lists, and the lookup table of allocated tags. The lookup arrays of the
  spans are one map keyed by the address of the slot.
 */
module ArbGeometry {
  import opened Arith
  import opened Bits
  import opened Seqs

  type TagId = nat

  datatype Tag = Tag(start: nat, size: nat, busy: bool, fl: int) {
    function End(): nat { start + size }

    predicate Covers(a: int) { start <= a < End() }
  }

  datatype Span = Span(start: nat, size: nat) {
    function End(): nat { start + size }

    predicate Covers(a: int) { start <= a < End() }
  }

  datatype Mode = BestFit | Instant | Search

  // ---------- Rounding ----------

  /** The smallest multiple of `units` that is at least `n`. */
  function RoundUp(n: nat, units: nat): (r: nat)
    requires units > 0
    ensures r % units == 0
    ensures n <= r < n + units
  {
    var rest := n % units;
    if rest == 0 then n else
      var r := n + (units - rest);
      assert r == (n / units + 1) * units;
      MultipleMod(n / units + 1, units);
      r
  }

  /** The rounding of arb_alloc and arb_reserve in 32-bit arithmetic. */
  function Round32(n: nat, units: nat): nat
    requires units > 0
  {
    var rest := n % units;
    if rest == 0 then n else (n + (units - rest)) % TWO32
  }

  /** The 32-bit rounding is the true one exactly when the true one fits in 32 bits. */
  lemma Round32Exact(n: nat, units: nat)
    requires 0 < units && n < TWO32
    ensures Round32(n, units) == RoundUp(n, units) <==> RoundUp(n, units) < TWO32
  {
  }

  /** When the unit divides 4 GB, as a page does, rounding gives 0 for exactly the requests within a unit of 4 GB. */
  lemma Round32Zero(n: nat, units: nat)
    requires 0 < units < TWO32 && n < TWO32 && TWO32 % units == 0
    ensures Round32(n, units) == 0 <==> n == 0 || n > TWO32 - units
  {
    Round32Is(n, units);
    hide RoundUp, Round32;
    if TWO32 - units < n {
      SameMultiple(RoundUp(n, units), TWO32, units);
    }
  }

  lemma Round32Is(n: nat, units: nat)
    requires 0 < units && n < TWO32
    ensures n <= RoundUp(n, units) < n + units && RoundUp(n, units) % units == 0
    ensures RoundUp(n, units) < TWO32 ==> Round32(n, units) == RoundUp(n, units)
    ensures RoundUp(n, units) == TWO32 ==> Round32(n, units) == 0
  {
  }

  function Sum32(a: nat, b: nat): nat { (a + b) % TWO32 }

  /** A bound is reached. */
  predicate Reaches(end: nat, sum: nat) { end >= sum }

  /**
    The comparison of arb_reserve agrees with the true one on every tag if and only if position and size
    do not wrap.
   */
  lemma ReserveSumExact(res: nat, size: nat)
    requires res < TWO32 && size < TWO32
    ensures (forall end: nat :: end < TWO32 ==> (Reaches(end, Sum32(res, size)) <==> end >= res + size)) <==> res + size < TWO32
  {
    assert Reaches(TWO32 - 1, Sum32(res, size));
  }

  // ---------- Geometry: the tags tile the spans ----------

  predicate Inside(t: Tag, sp: Span, units: nat)
    requires units > 0
  {
    && t.size > 0
    && sp.start <= t.start && t.End() <= sp.End()
    && (t.start - sp.start) % units == 0
    && t.size % units == 0
  }

  ghost predicate Within(t: Tag, spans: seq<Span>, units: nat)
    requires units > 0
  {
    exists sp :: sp in spans && Inside(t, sp, units)
  }

  ghost predicate Covered(bt: map<TagId, Tag>, a: int) {
    exists id :: id in bt && bt[id].Covers(a)
  }

  ghost predicate SpansOrdered(spans: seq<Span>) {
    && (forall i, j :: 0 <= i < j < |spans| ==> spans[i].End() <= spans[j].start)
    && (forall i :: 0 <= i < |spans| ==> spans[i].size > 0)
  }

  predicate Apart(s: Tag, t: Tag) { s.End() <= t.start || t.End() <= s.start }

  /** The list is in address order. */
  ghost predicate Sorted(bt: map<TagId, Tag>, tags: seq<TagId>) {
    && (forall i :: 0 <= i < |tags| ==> tags[i] in bt)
    && (forall i, j :: 0 <= i < j < |tags| ==> bt[tags[i]].start < bt[tags[j]].start)
  }

  predicate Has(tags: seq<TagId>, id: TagId) { id in tags }

  /** Every tag record is on the list. */
  ghost predicate Complete(bt: map<TagId, Tag>, tags: seq<TagId>) {
    forall id {:trigger Has(tags, id)} :: id in bt ==> Has(tags, id)
  }

  /** Distinct tags share no address. */
  ghost predicate Disjoint(bt: map<TagId, Tag>) {
    forall x, y :: x in bt && y in bt && x != y ==> Apart(bt[x], bt[y])
  }

  /** Every tag lies inside one span and every address of a span lies in a tag. */
  ghost predicate Tiled(bt: map<TagId, Tag>, spans: seq<Span>, units: nat)
    requires units > 0
  {
    && (forall id :: id in bt ==> Within(bt[id], spans, units))
    && (forall k, a: int :: 0 <= k < |spans| && spans[k].Covers(a) ==> Covered(bt, a))
  }

  ghost predicate Geometry(bt: map<TagId, Tag>, tags: seq<TagId>, spans: seq<Span>, units: nat)
    requires units > 0
  {
    SpansOrdered(spans) && Sorted(bt, tags) && Complete(bt, tags) && Disjoint(bt) && Tiled(bt, spans, units)
  }

  /** Geometry looks at starts and sizes only. */
  ghost predicate SameShape(bt: map<TagId, Tag>, bt': map<TagId, Tag>) {
    && bt.Keys == bt'.Keys
    && forall id :: id in bt ==> bt'[id].start == bt[id].start && bt'[id].size == bt[id].size
  }

  /** Same ranges and states; only the free-list indicators may differ. */
  ghost predicate SameRanges(bt: map<TagId, Tag>, bt': map<TagId, Tag>) {
    SameShape(bt, bt') && forall id :: id in bt ==> bt'[id].busy == bt[id].busy
  }

  lemma ShapeKeepsTiling(bt: map<TagId, Tag>, bt': map<TagId, Tag>, spans: seq<Span>, units: nat)
    requires units > 0 && Tiled(bt, spans, units) && SameShape(bt, bt')
    ensures Tiled(bt', spans, units)
  {
    forall id | id in bt' ensures Within(bt'[id], spans, units) {
      var sp :| sp in spans && Inside(bt[id], sp, units);
      assert Inside(bt'[id], sp, units);
    }
    forall k, a: int | 0 <= k < |spans| && spans[k].Covers(a) ensures Covered(bt', a) {
      assert Covered(bt, a);
      var id :| id in bt && bt[id].Covers(a);
      assert bt'[id].Covers(a);
    }
  }

  lemma ShapeKeepsGeometry(bt: map<TagId, Tag>, bt': map<TagId, Tag>, tags: seq<TagId>, spans: seq<Span>, units: nat)
    requires units > 0 && Geometry(bt, tags, spans, units) && SameShape(bt, bt')
    ensures Geometry(bt', tags, spans, units)
  {
    ShapeKeepsTiling(bt, bt', spans, units);
    assert Sorted(bt', tags) && Complete(bt', tags);
    forall x, y | x in bt' && y in bt' && x != y ensures Apart(bt'[x], bt'[y]) {
      assert Apart(bt[x], bt[y]);
    }
  }

  /** Cutting `n` off the right end of a tag, as arb_al_splittag does. */
  function SplitTags(bt: map<TagId, Tag>, id: TagId, n: nat, tmp: TagId): map<TagId, Tag>
    requires id in bt && n <= bt[id].size
  {
    var t := bt[id];
    bt[id := t.(size := t.size - n)][tmp := Tag(t.start + (t.size - n), n, false, -1)]
  }

  /** The same in 32-bit arithmetic, for any two sizes. */
  function Split32(bt: map<TagId, Tag>, id: TagId, n: nat, tmp: TagId): map<TagId, Tag>
    requires id in bt
  {
    var t := bt[id];
    var left := (t.size - n) % TWO32;
    bt[id := t.(size := left)][tmp := Tag((t.start + left) % TWO32, n, false, -1)]
  }

  lemma Split32Exact(bt: map<TagId, Tag>, id: TagId, n: nat, tmp: TagId)
    requires id in bt && n <= bt[id].size && bt[id].End() < TWO32
    ensures Split32(bt, id, n, tmp) == SplitTags(bt, id, n, tmp)
  {
  }

  lemma SplitKeepsGeometry(bt: map<TagId, Tag>, tags: seq<TagId>, spans: seq<Span>, units: nat, i: nat, n: nat,
                           tmp: TagId)
    requires units > 0 && Geometry(bt, tags, spans, units)
    requires i < |tags| && 0 < n < bt[tags[i]].size && n % units == 0 && tmp !in bt
    ensures Geometry(SplitTags(bt, tags[i], n, tmp), InsertAt(tags, i + 1, tmp), spans, units)
  {
    SplitKeepsList(bt, tags, i, n, tmp);
    SplitKeepsDisjoint(bt, tags[i], n, tmp);
    SplitKeepsTiling(bt, tags[i], spans, units, n, tmp);
  }

  lemma SplitKeepsDisjoint(bt: map<TagId, Tag>, id: TagId, n: nat, tmp: TagId)
    requires Disjoint(bt) && id in bt && n < bt[id].size && tmp !in bt
    ensures Disjoint(SplitTags(bt, id, n, tmp))
  {
    var bt' := SplitTags(bt, id, n, tmp);
    forall x, y | x in bt' && y in bt' && x != y ensures Apart(bt'[x], bt'[y]) {
      var x', y' := if x == tmp then id else x, if y == tmp then id else y;
      assert x' == y' || Apart(bt[x'], bt[y']);
    }
  }

  lemma SplitKeepsTiling(bt: map<TagId, Tag>, id: TagId, spans: seq<Span>, units: nat, n: nat, tmp: TagId)
    requires units > 0 && Tiled(bt, spans, units)
    requires id in bt && 0 < n < bt[id].size && n % units == 0 && tmp !in bt
    ensures Tiled(SplitTags(bt, id, n, tmp), spans, units)
  {
    var t, bt' := bt[id], SplitTags(bt, id, n, tmp);
    forall x | x in bt' ensures Within(bt'[x], spans, units) {
      var sp :| sp in spans && Inside(bt[if x == tmp then id else x], sp, units);
      SplitInside(t, sp, units, n);
      assert Inside(bt'[x], sp, units);
    }
    forall k, a: int | 0 <= k < |spans| && spans[k].Covers(a) ensures Covered(bt', a) {
      assert Covered(bt, a);
      var x :| x in bt && bt[x].Covers(a);
      var y := if x == id && a >= t.start + (t.size - n) then tmp else x;
      assert bt'[y].Covers(a);
    }
  }

  lemma SplitInside(t: Tag, sp: Span, units: nat, n: nat)
    requires units > 0 && 0 < n < t.size && n % units == 0
    ensures Inside(t, sp, units) ==>
      && Inside(t.(size := t.size - n), sp, units)
      && Inside(Tag(t.start + (t.size - n), n, false, -1), sp, units)
  {
    if Inside(t, sp, units) {
      AlignedSum(t.size, n, units);
      AlignedSum(t.start - sp.start, t.size - n, units);
    }
  }

  lemma SplitKeepsList(bt: map<TagId, Tag>, tags: seq<TagId>, i: nat, n: nat, tmp: TagId)
    requires Sorted(bt, tags) && Complete(bt, tags) && Disjoint(bt)
    requires i < |tags| && 0 < n < bt[tags[i]].size && tmp !in bt
    ensures Sorted(SplitTags(bt, tags[i], n, tmp), InsertAt(tags, i + 1, tmp))
    ensures Complete(SplitTags(bt, tags[i], n, tmp), InsertAt(tags, i + 1, tmp))
  {
    SplitKeepsOrder(bt, tags, i, n, tmp);
    InsertContents(tags, i + 1, tmp);
    forall x | x in SplitTags(bt, tags[i], n, tmp) ensures Has(InsertAt(tags, i + 1, tmp), x) {
      assert x == tmp || Has(tags, x);
    }
  }

  lemma SplitKeepsOrder(bt: map<TagId, Tag>, tags: seq<TagId>, i: nat, n: nat, tmp: TagId)
    requires Sorted(bt, tags) && Disjoint(bt) && i < |tags| && 0 < n < bt[tags[i]].size && tmp !in bt
    ensures Sorted(SplitTags(bt, tags[i], n, tmp), InsertAt(tags, i + 1, tmp))
  {
    var id := tags[i];
    var bt', tags' := SplitTags(bt, id, n, tmp), InsertAt(tags, i + 1, tmp);
    forall p, q | 0 <= p < q < |tags'| ensures bt'[tags'[p]].start < bt'[tags'[q]].start {
      var y := tags[if q <= i then q else q - 1];
      assert y == id || Apart(bt[id], bt[y]);
    }
  }

  /** Melting tag `y` into the tag `x` on its left, as arb_free does. */
  function MergeTags(bt: map<TagId, Tag>, x: TagId, y: TagId): map<TagId, Tag>
    requires x in bt && y in bt
  {
    (bt - {y})[x := bt[x].(size := bt[x].size + bt[y].size)]
  }

  lemma MergeKeepsGeometry(bt: map<TagId, Tag>, tags: seq<TagId>, spans: seq<Span>, units: nat, i: nat, sp: Span)
    requires units > 0 && Geometry(bt, tags, spans, units)
    requires i + 1 < |tags| && sp in spans
    requires Inside(bt[tags[i]], sp, units) && Inside(bt[tags[i + 1]], sp, units)
    requires bt[tags[i]].End() == bt[tags[i + 1]].start
    ensures Geometry(MergeTags(bt, tags[i], tags[i + 1]), RemoveAt(tags, i + 1), spans, units)
  {
    var x, y := tags[i], tags[i + 1];
    MergeKeepsList(bt, tags, i);
    MergeKeepsTiling(bt, x, y, spans, units, sp);
    assert forall z :: z in bt ==> Within(bt[z], spans, units);
    MergeKeepsDisjoint(bt, x, y);
  }

  lemma MergeKeepsDisjoint(bt: map<TagId, Tag>, x: TagId, y: TagId)
    requires Disjoint(bt) && x in bt && y in bt && x != y && bt[x].End() == bt[y].start
    requires bt[x].size > 0 && bt[y].size > 0 && forall z :: z in bt ==> bt[z].size > 0
    ensures Disjoint(MergeTags(bt, x, y))
  {
    var bt' := MergeTags(bt, x, y);
    forall a, b | a in bt' && b in bt' && a != b ensures Apart(bt'[a], bt'[b]) {
      assert Apart(bt[a], bt[b]) && (a != x || Apart(bt[y], bt[b])) && (b != x || Apart(bt[y], bt[a]));
    }
  }

  lemma MergeKeepsList(bt: map<TagId, Tag>, tags: seq<TagId>, i: nat)
    requires Sorted(bt, tags) && Complete(bt, tags) && i + 1 < |tags|
    ensures Sorted(MergeTags(bt, tags[i], tags[i + 1]), RemoveAt(tags, i + 1))
    ensures Complete(MergeTags(bt, tags[i], tags[i + 1]), RemoveAt(tags, i + 1))
  {
    var bt', tags' := MergeTags(bt, tags[i], tags[i + 1]), RemoveAt(tags, i + 1);
    SortedDistinct(bt, tags);
    RemoveDistinct(tags, i + 1);
    assert Sorted(bt', tags') by {
      assert forall p :: 0 <= p < |tags'| ==> tags'[p] in tags && tags'[p] != tags[i + 1];
    }
    forall x | x in bt' ensures Has(tags', x) {
      assert Has(tags, x);
    }
  }

  lemma SortedDistinct(bt: map<TagId, Tag>, tags: seq<TagId>)
    requires Sorted(bt, tags)
    ensures NoDup(tags)
  {
  }

  lemma MergeKeepsTiling(bt: map<TagId, Tag>, x: TagId, y: TagId, spans: seq<Span>, units: nat, sp: Span)
    requires units > 0 && Tiled(bt, spans, units) && x in bt && y in bt && x != y && sp in spans
    requires Inside(bt[x], sp, units) && Inside(bt[y], sp, units) && bt[x].End() == bt[y].start
    ensures Tiled(MergeTags(bt, x, y), spans, units)
  {
    var bt' := MergeTags(bt, x, y);
    AlignedSum(bt[x].size, bt[y].size, units);
    assert Inside(bt'[x], sp, units);
    assert forall z :: z in bt' && z != x ==> Within(bt[z], spans, units);
    forall k, a: int | 0 <= k < |spans| && spans[k].Covers(a) ensures Covered(bt', a) {
      assert Covered(bt, a);
      var z :| z in bt && bt[z].Covers(a);
      assert bt'[if z == y then x else z].Covers(a);
    }
  }

  lemma DisjointAt(bt: map<TagId, Tag>, x: TagId, y: TagId)
    requires Disjoint(bt) && x in bt && y in bt
    ensures x == y || Apart(bt[x], bt[y])
  {
  }

  /** Neighbours on the list inside one span touch. */
  lemma NeighboursTouch(bt: map<TagId, Tag>, tags: seq<TagId>, spans: seq<Span>, units: nat, i: nat, sp: Span)
    requires units > 0 && Geometry(bt, tags, spans, units)
    requires i + 1 < |tags| && sp in spans
    requires Inside(bt[tags[i]], sp, units) && Inside(bt[tags[i + 1]], sp, units)
    ensures bt[tags[i]].End() == bt[tags[i + 1]].start
  {
    hide SpansOrdered, Within;
    var x, y := tags[i], tags[i + 1];
    var a := bt[y].start - 1;
    assert bt[x].start < bt[y].start;
    assert sp.Covers(a);
    assert Covered(bt, a);
    hide Tiled;
    var z :| z in bt && bt[z].Covers(a);
    assert Has(tags, z);
    var k :| 0 <= k < |tags| && tags[k] == z;
    DisjointAt(bt, z, x);
    DisjointAt(bt, x, y);
  }

  /** A tag whose start lies in a span lies inside that span. */
  lemma TagInSpan(bt: map<TagId, Tag>, tags: seq<TagId>, spans: seq<Span>, units: nat, id: TagId, sp: Span)
    requires units > 0 && Geometry(bt, tags, spans, units)
    requires id in bt && sp in spans && sp.Covers(bt[id].start)
    ensures Inside(bt[id], sp, units)
  {
    assert Within(bt[id], spans, units);
    var sp' :| sp' in spans && Inside(bt[id], sp', units);
    var k :| 0 <= k < |spans| && spans[k] == sp;
    var k' :| 0 <= k' < |spans| && spans[k'] == sp';
  }
}
