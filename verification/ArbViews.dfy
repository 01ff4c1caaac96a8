/**
  The three redundant views that kernel/src/arb/arb.c keeps of its tags: the power-of-two free
  lists, the lookup table of allocated tags, and the running total of allocated space.
 */
module ArbViews {
  import opened Bits
  import opened Seqs
  import opened ArbGeometry

  // ---------- Free lists ----------

  /** The free list on which a free tag belongs. */
  function ListOf(t: Tag, units: nat): int
    requires units > 0
  {
    HighBit(UnitsIn(t.size, units))
  }

  /** How many whole units a size holds. */
  function UnitsIn(size: nat, units: nat): nat
    requires units > 0
  {
    size / units
  }

  /** The value of `fl_indicator` for a tag that is not held off the lists. */
  function Indicator(t: Tag, units: nat, cacheMax: nat): int
    requires units > 0
  {
    if !t.busy && ListOf(t, units) < cacheMax then ListOf(t, units) else -1
  }

  /**
    Each list is duplicate-free and holds exactly the free tags of its size class, and every
    indicator agrees. The tags in `held` are off the lists whatever their state.
   */
  ghost predicate ListsAgree(bt: map<TagId, Tag>, free: seq<seq<TagId>>, units: nat, held: set<TagId>)
    requires units > 0
  {
    && (forall k :: 0 <= k < |free| ==> NoDup(free[k]))
    && (forall k, id {:trigger Has(free[k], id)} :: 0 <= k < |free| ==>
         (Has(free[k], id) <==> id in bt && id !in held && !bt[id].busy && ListOf(bt[id], units) == k))
    && (forall id :: id in bt ==> bt[id].fl == if id in held then -1 else Indicator(bt[id], units, |free|))
  }

  /** rem_freelist on values. */
  function Unlinked(bt: map<TagId, Tag>, free: seq<seq<TagId>>, id: TagId): (seq<seq<TagId>>, map<TagId, Tag>)
    requires id in bt
  {
    var k := bt[id].fl;
    if !(0 <= k < |free|) then (free, bt)
    else (free[k := Without(free[k], id)], bt[id := bt[id].(fl := -1)])
  }

  lemma UnlinkAgrees(bt: map<TagId, Tag>, free: seq<seq<TagId>>, units: nat, held: set<TagId>, id: TagId)
    requires units > 0 && ListsAgree(bt, free, units, held) && id in bt
    ensures ListsAgree(Unlinked(bt, free, id).1, Unlinked(bt, free, id).0, units, held + {id})
    ensures SameRanges(bt, Unlinked(bt, free, id).1) && -1 <= bt[id].fl < |free|
  {
    var k := bt[id].fl;
    var (free', bt') := Unlinked(bt, free, id);
    if 0 <= k < |free| {
      WithoutDistinct(free[k], id);
      forall j, x | 0 <= j < |free'|
        ensures Has(free'[j], x) <==> x in bt' && x !in held + {id} && !bt'[x].busy && ListOf(bt'[x], units) == j
      {
        assert Has(free[j], x) <==> x in bt && x !in held && !bt[x].busy && ListOf(bt[x], units) == j;
      }
    } else {
      forall j | 0 <= j < |free| ensures !Has(free[j], id) {
        assert id in held || ListOf(bt[id], units) != j || bt[id].busy;
      }
    }
  }

  /** add_freelist on values. */
  function Linked(bt: map<TagId, Tag>, free: seq<seq<TagId>>, units: nat, id: TagId): (seq<seq<TagId>>, map<TagId, Tag>)
    requires units > 0 && id in bt
  {
    var k := ListOf(bt[id], units);
    if !(0 <= k < |free|) then (free, bt)
    else (free[k := [id] + free[k]], bt[id := bt[id].(fl := k)])
  }

  lemma LinkAgrees(bt: map<TagId, Tag>, free: seq<seq<TagId>>, units: nat, held: set<TagId>, id: TagId)
    requires units > 0 && ListsAgree(bt, free, units, held)
    requires id in bt && id in held && !bt[id].busy && bt[id].size >= units
    ensures ListsAgree(Linked(bt, free, units, id).1, Linked(bt, free, units, id).0, units, held - {id})
    ensures SameRanges(bt, Linked(bt, free, units, id).1)
  {
    var k := ListOf(bt[id], units);
    var (free', bt') := Linked(bt, free, units, id);
    assert UnitsIn(bt[id].size, units) > 0;
    forall j, x | 0 <= j < |free'|
      ensures Has(free'[j], x) <==> x in bt' && x !in held - {id} && !bt'[x].busy && ListOf(bt'[x], units) == j
    {
      assert Has(free[j], x) <==> x in bt && x !in held && !bt[x].busy && ListOf(bt[x], units) == j;
    }
    assert k < |free| ==> !Has(free[k], id);
  }

  /** A held tag may change, appear or disappear without the lists noticing. */
  lemma HeldMayChange(bt: map<TagId, Tag>, free: seq<seq<TagId>>, units: nat, held: set<TagId>, bt': map<TagId, Tag>,
                      held': set<TagId>)
    requires units > 0 && ListsAgree(bt, free, units, held)
    requires forall x :: x in bt && x !in held <==> x in bt' && x !in held'
    requires forall x :: x in bt && x !in held ==> bt'[x] == bt[x]
    requires forall x :: x in bt' && x in held' ==> bt'[x].fl == -1
    ensures ListsAgree(bt', free, units, held')
  {
    forall k, x | 0 <= k < |free|
      ensures Has(free[k], x) <==> x in bt' && x !in held' && !bt'[x].busy && ListOf(bt'[x], units) == k
    {
    }
  }

  lemma SplitKeepsLists(bt: map<TagId, Tag>, free: seq<seq<TagId>>, units: nat, id: TagId, n: nat, tmp: TagId)
    requires units > 0 && ListsAgree(bt, free, units, {id})
    requires id in bt && n <= bt[id].size && tmp !in bt
    ensures ListsAgree(SplitTags(bt, id, n, tmp), free, units, {id, tmp})
  {
    HeldMayChange(bt, free, units, {id}, SplitTags(bt, id, n, tmp), {id, tmp});
  }

  lemma MergeKeepsLists(bt: map<TagId, Tag>, free: seq<seq<TagId>>, units: nat, x: TagId, y: TagId)
    requires units > 0 && ListsAgree(bt, free, units, {x, y})
    requires x in bt && y in bt && x != y
    ensures ListsAgree(MergeTags(bt, x, y), free, units, {x})
  {
    HeldMayChange(bt, free, units, {x, y}, MergeTags(bt, x, y), {x});
  }

  /** An allocated tag need not be held. */
  lemma BusyIsOffLists(bt: map<TagId, Tag>, free: seq<seq<TagId>>, units: nat, held: set<TagId>, id: TagId)
    requires units > 0 && ListsAgree(bt, free, units, held) && (id in bt ==> bt[id].busy)
    ensures ListsAgree(bt, free, units, held - {id})
    ensures ListsAgree(bt, free, units, held + {id})
  {
    forall k, x | 0 <= k < |free| && x != id
      ensures Has(free[k], x) <==> x in bt && x !in held - {id} && !bt[x].busy && ListOf(bt[x], units) == k
    {
    }
  }

  lemma UnitsMonotone(a: nat, b: nat, units: nat)
    requires units > 0
    ensures a <= b ==> UnitsIn(a, units) <= UnitsIn(b, units)
  {
    var p, q := a / units, b / units;
    assert a == p * units + a % units && b == q * units + b % units;
    assert p > q ==> p * units >= (q + 1) * units;
  }

  /** The first tag of any higher list fits: the claim behind ARB_INSTANT. */
  lemma HigherListFits(t: Tag, units: nat, need: nat)
    requires units > 0 && ListOf(t, units) > HighBit(UnitsIn(need, units))
    ensures t.size >= need
  {
    UnitsMonotone(t.size, need, units);
    HighBitMonotone(UnitsIn(t.size, units), UnitsIn(need, units));
  }

  // ---------- Coalescing ----------

  ghost predicate SpanStart(spans: seq<Span>, a: int) {
    exists sp :: sp in spans && sp.start == a
  }

  /** No two free tags of one span touch, except at the addresses in `seams`. */
  ghost predicate Coalesced(bt: map<TagId, Tag>, spans: seq<Span>, seams: set<int>) {
    forall x, y :: x in bt && y in bt && !bt[x].busy && !bt[y].busy && bt[x].End() == bt[y].start
      ==> SpanStart(spans, bt[y].start) || bt[y].start in seams
  }

  /** Only the tag just before `y` on the list can end where `y` starts. */
  lemma OnlyPredecessorTouches(bt: map<TagId, Tag>, tags: seq<TagId>, i: nat, x: TagId)
    requires Sorted(bt, tags) && Complete(bt, tags) && Disjoint(bt) && i < |tags| && x in bt
    requires bt[x].size > 0 && bt[x].End() == bt[tags[i]].start
    ensures i > 0 && tags[i - 1] == x
  {
    assert Has(tags, x);
    var k :| 0 <= k < |tags| && tags[k] == x;
    assert k < i - 1 ==> Apart(bt[x], bt[tags[i - 1]]);
  }

  /** Touching tags on both sides of an address inside a span lie in that span. */
  lemma TouchingInSpan(bt: map<TagId, Tag>, tags: seq<TagId>, spans: seq<Span>, units: nat, x: TagId, sp: Span)
    requires units > 0 && Geometry(bt, tags, spans, units) && x in bt && sp in spans
    requires sp.Covers(bt[x].End() - 1) || sp.Covers(bt[x].start)
    ensures Inside(bt[x], sp, units)
  {
    assert Within(bt[x], spans, units);
    var sp' :| sp' in spans && Inside(bt[x], sp', units);
    var k :| 0 <= k < |spans| && spans[k] == sp;
    var k' :| 0 <= k' < |spans| && spans[k'] == sp';
  }

  // ---------- Lookup table ----------

  /** The table maps exactly the starts of the allocated tags to their tags. */
  ghost predicate Lookup(bt: map<TagId, Tag>, hash: map<nat, TagId>) {
    && (forall a :: a in hash ==> hash[a] in bt && bt[hash[a]].busy && bt[hash[a]].start == a)
    && (forall id :: id in bt && bt[id].busy ==> bt[id].start in hash && hash[bt[id].start] == id)
  }

  /** The live allocations as (start, size) pairs. */
  ghost function Live(bt: map<TagId, Tag>): set<(nat, nat)> {
    set id | id in bt && bt[id].busy :: (bt[id].start, bt[id].size)
  }

  // ---------- Usage ----------

  function Weight(bt: map<TagId, Tag>, id: TagId): nat {
    if id in bt && bt[id].busy then bt[id].size else 0
  }

  function Used(bt: map<TagId, Tag>, tags: seq<TagId>): nat {
    if tags == [] then 0 else Weight(bt, tags[0]) + Used(bt, tags[1..])
  }

  lemma {:induction false} UsedFrame(bt: map<TagId, Tag>, bt': map<TagId, Tag>, tags: seq<TagId>)
    requires forall i :: 0 <= i < |tags| ==> Weight(bt', tags[i]) == Weight(bt, tags[i])
    ensures Used(bt', tags) == Used(bt, tags)
  {
    if tags != [] {
      UsedFrame(bt, bt', tags[1..]);
    }
  }

  lemma {:induction false} UsedInsert(bt: map<TagId, Tag>, tags: seq<TagId>, i: nat, x: TagId)
    requires i <= |tags|
    ensures Used(bt, InsertAt(tags, i, x)) == Used(bt, tags) + Weight(bt, x)
  {
    var r := InsertAt(tags, i, x);
    if i == 0 {
      assert r[1..] == tags;
    } else {
      assert r[1..] == InsertAt(tags[1..], i - 1, x);
      UsedInsert(bt, tags[1..], i - 1, x);
    }
  }

  lemma UsedRemove(bt: map<TagId, Tag>, tags: seq<TagId>, i: nat)
    requires i < |tags|
    ensures Used(bt, RemoveAt(tags, i)) == Used(bt, tags) - Weight(bt, tags[i])
  {
    assert InsertAt(RemoveAt(tags, i), i, tags[i]) == tags;
    UsedInsert(bt, RemoveAt(tags, i), i, tags[i]);
  }

  /** Changing the weight of one listed tag changes the total by the same amount. */
  lemma UsedChange(bt: map<TagId, Tag>, bt': map<TagId, Tag>, tags: seq<TagId>, i: nat)
    requires i < |tags| && NoDup(tags)
    requires forall x :: x != tags[i] ==> Weight(bt', x) == Weight(bt, x)
    ensures Used(bt', tags) == Used(bt, tags) - Weight(bt, tags[i]) + Weight(bt', tags[i])
  {
    UsedRemove(bt, tags, i);
    UsedRemove(bt', tags, i);
    UsedFrame(bt, bt', RemoveAt(tags, i));
  }
}
