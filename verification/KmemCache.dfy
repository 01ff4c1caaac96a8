/**
  The slab/stack object cache of kernel/src/arb/kmem_cache.c. A stack is the list of the objects
  below its position; the front of `stacks` is the stack in use.
 */
module KmemCache {
  import opened Arith
  import opened Bits
  import opened Seqs

  const KMEM_OBJECTS: nat := 1024
  const KMEM_STACKSIZE: nat := 1024

  datatype Slab = Slab(ptr: nat, total: nat, usage: int)

  // ---------- Objects ----------

  /** The first `n` objects of a slab at `ptr`. */
  function Objects(ptr: nat, n: nat, size: nat): (s: set<nat>)
    requires size > 0
    ensures |s| == n
    ensures forall x :: x in s ==> ptr <= x < ptr + n * size
  {
    if n == 0 then {} else
      assert (n - 1) * size + size == n * size;
      Objects(ptr, n - 1, size) + {ptr + (n - 1) * size}
  }

  function SlabObjects(slab: Slab, size: nat): set<nat>
    requires size > 0
  {
    Objects(slab.ptr, slab.total, size)
  }

  function AllObjects(slabs: seq<Slab>, size: nat): set<nat>
    requires size > 0
  {
    if slabs == [] then {} else SlabObjects(slabs[0], size) + AllObjects(slabs[1..], size)
  }

  function TotalOf(slab: Slab): nat { slab.total }

  predicate InRange(slab: Slab, x: nat, size: nat) { slab.ptr <= x < slab.ptr + slab.total * size }

  /** Slabs hold 1 to 1024 objects and occupy disjoint memory. */
  ghost predicate SlabsApart(slabs: seq<Slab>, size: nat) {
    && (forall i :: 0 <= i < |slabs| ==> 1 <= slabs[i].total <= KMEM_OBJECTS)
    && (forall i, j, x :: 0 <= i < j < |slabs| && InRange(slabs[i], x, size) ==> !InRange(slabs[j], x, size))
  }

  lemma {:induction false} ObjectOfSomeSlab(slabs: seq<Slab>, size: nat, x: nat)
    requires size > 0
    ensures x in AllObjects(slabs, size) <==> exists i :: 0 <= i < |slabs| && x in SlabObjects(slabs[i], size)
  {
    if slabs != [] {
      ObjectOfSomeSlab(slabs[1..], size, x);
      if i :| 0 <= i < |slabs| && x in SlabObjects(slabs[i], size) {
        assert i > 0 ==> slabs[i] == slabs[1..][i - 1];
      }
    }
  }

  lemma FirstSlabApart(slabs: seq<Slab>, size: nat)
    requires size > 0 && SlabsApart(slabs, size) && slabs != []
    ensures SlabObjects(slabs[0], size) !! AllObjects(slabs[1..], size)
  {
    hide Objects, AllObjects;
    forall x | x in SlabObjects(slabs[0], size) ensures x !in AllObjects(slabs[1..], size) {
      ObjectOfSomeSlab(slabs[1..], size, x);
      assert InRange(slabs[0], x, size);
    }
  }

  lemma {:induction false} ObjectCount(slabs: seq<Slab>, size: nat)
    requires size > 0 && SlabsApart(slabs, size)
    ensures |AllObjects(slabs, size)| == Sum(slabs, TotalOf)
  {
    if slabs != [] {
      hide Objects;
      assert SlabsApart(slabs[1..], size);
      FirstSlabApart(slabs, size);
      hide SlabsApart;
      ObjectCount(slabs[1..], size);
    }
  }

  // ---------- Stacks ----------

  /** The objects on all stacks, counted with multiplicity. */
  function Stacked(stacks: seq<seq<nat>>): multiset<nat> {
    if stacks == [] then multiset{} else multiset(stacks[0]) + Stacked(stacks[1..])
  }

  function Height(s: seq<nat>): nat { |s| }

  lemma {:induction false} StackedInsert(stacks: seq<seq<nat>>, i: nat, s: seq<nat>)
    requires i <= |stacks|
    ensures Stacked(InsertAt(stacks, i, s)) == Stacked(stacks) + multiset(s)
  {
    var r := InsertAt(stacks, i, s);
    if i == 0 {
      assert r[1..] == stacks;
    } else {
      assert r[1..] == InsertAt(stacks[1..], i - 1, s);
      StackedInsert(stacks[1..], i - 1, s);
    }
  }

  lemma {:induction false} StackedRemove(stacks: seq<seq<nat>>, i: nat)
    requires i < |stacks|
    ensures Stacked(RemoveAt(stacks, i)) + multiset(stacks[i]) == Stacked(stacks)
  {
    assert InsertAt(RemoveAt(stacks, i), i, stacks[i]) == stacks;
    StackedInsert(RemoveAt(stacks, i), i, stacks[i]);
  }

  /** Unlinking the i-th stack and moving it to the front. */
  function ToFront(stacks: seq<seq<nat>>, i: nat): (r: seq<seq<nat>>)
    requires i < |stacks|
    ensures |r| == |stacks| && r[0] == stacks[i]
  {
    [stacks[i]] + RemoveAt(stacks, i)
  }

  lemma ToFrontKeeps(stacks: seq<seq<nat>>, i: nat)
    requires i < |stacks|
    ensures Stacked(ToFront(stacks, i)) == Stacked(stacks)
    ensures forall s :: s in ToFront(stacks, i) ==> s in stacks
  {
    StackedRemove(stacks, i);
    var r := ToFront(stacks, i);
    assert r[1..] == RemoveAt(stacks, i);
    forall s | s in r ensures s in stacks {
      var j :| 0 <= j < |r| && r[j] == s;
      assert s == stacks[if j == 0 then i else if j - 1 < i then j - 1 else j];
    }
  }

  lemma StackedFront(stacks: seq<seq<nat>>, s: seq<nat>)
    requires stacks != []
    ensures Stacked(stacks[0 := s]) + multiset(stacks[0]) == Stacked(stacks) + multiset(s)
  {
    assert stacks[0 := s][1..] == stacks[1..];
  }

  lemma {:induction false} StackedCount(stacks: seq<seq<nat>>)
    ensures |Stacked(stacks)| == Sum(stacks, Height)
  {
    if stacks != [] {
      StackedCount(stacks[1..]);
    }
  }

  lemma {:induction false} AllEmptyNone(stacks: seq<seq<nat>>)
    requires forall i :: 0 <= i < |stacks| ==> stacks[i] == []
    ensures |Stacked(stacks)| == 0
  {
    if stacks != [] {
      AllEmptyNone(stacks[1..]);
    }
  }

  lemma {:induction false} AllFullMany(stacks: seq<seq<nat>>)
    requires forall i :: 0 <= i < |stacks| ==> |stacks[i]| == KMEM_STACKSIZE
    ensures |Stacked(stacks)| == |stacks| * KMEM_STACKSIZE
  {
    if stacks != [] {
      AllFullMany(stacks[1..]);
    }
  }

  lemma {:induction false} TotalsBounded(slabs: seq<Slab>)
    requires forall i :: 0 <= i < |slabs| ==> slabs[i].total <= KMEM_OBJECTS
    ensures Sum(slabs, TotalOf) <= |slabs| * KMEM_OBJECTS
  {
    if slabs != [] {
      TotalsBounded(slabs[1..]);
    }
  }

  // ---------- The cache ----------

  /** Every object is live or on a stack, exactly once, and the counts say so. */
  ghost predicate Balanced(slabs: seq<Slab>, stacks: seq<seq<nat>>, live: set<nat>, size: nat, total: int, used: int) {
    && size > 0 && SlabsApart(slabs, size)
    && |slabs| == |stacks| && stacks != []
    && (forall i :: 0 <= i < |stacks| ==> |stacks[i]| <= KMEM_STACKSIZE)
    && Stacked(stacks) + multiset(live) == multiset(AllObjects(slabs, size))
    && total == Sum(slabs, TotalOf) && used == |live|
  }

  /** Per-slab usage is the number of its live objects. */
  ghost predicate UsageExact(slabs: seq<Slab>, live: set<nat>, size: nat)
    requires size > 0
  {
    forall i :: 0 <= i < |slabs| ==> slabs[i].usage == |live * SlabObjects(slabs[i], size)|
  }

  /** used + the sum of the stack positions = total. */
  lemma PositionsSum(slabs: seq<Slab>, stacks: seq<seq<nat>>, live: set<nat>, size: nat, total: int, used: int)
    requires Balanced(slabs, stacks, live, size, total, used)
    ensures used + Sum(stacks, Height) == total
  {
    ObjectCount(slabs, size);
    StackedCount(stacks);
    assert |Stacked(stacks) + multiset(live)| == |Stacked(stacks)| + |live|;
  }

  /** While not every object is in use, some stack holds one: the search of kmem_cache_alloc never yields NULL. */
  lemma SomeStackHasObject(slabs: seq<Slab>, stacks: seq<seq<nat>>, live: set<nat>, size: nat, total: int, used: int)
    requires Balanced(slabs, stacks, live, size, total, used) && used != total
    ensures exists i :: 0 <= i < |stacks| && stacks[i] != []
  {
    hide Stacked, AllObjects;
    PositionsSum(slabs, stacks, live, size, total, used);
    StackedCount(stacks);
    if forall i :: 0 <= i < |stacks| ==> stacks[i] == [] {
      AllEmptyNone(stacks);
    }
  }

  /** While some object is live, some stack has room: a legal free never overflows a stack. */
  lemma SomeStackHasRoom(slabs: seq<Slab>, stacks: seq<seq<nat>>, live: set<nat>, size: nat, total: int, used: int)
    requires Balanced(slabs, stacks, live, size, total, used) && used > 0
    ensures exists i :: 0 <= i < |stacks| && |stacks[i]| < KMEM_STACKSIZE
  {
    hide Stacked, AllObjects;
    PositionsSum(slabs, stacks, live, size, total, used);
    StackedCount(stacks);
    TotalsBounded(slabs);
    if forall i :: 0 <= i < |stacks| ==> |stacks[i]| == KMEM_STACKSIZE {
      AllFullMany(stacks);
    }
  }

  /** Taking the top object off the front stack. */
  lemma PopStep(slabs: seq<Slab>, stacks: seq<seq<nat>>, live: set<nat>, size: nat, total: int, used: int)
    requires Balanced(slabs, stacks, live, size, total, used) && stacks[0] != []
    ensures var n := |stacks[0]| - 1;
            var obj := stacks[0][n];
            && obj !in live && obj in AllObjects(slabs, size)
            && Balanced(slabs, stacks[0 := stacks[0][..n]], live + {obj}, size, total, used + 1)
  {
    hide Stacked, AllObjects, SlabsApart, Sum;
    var n := |stacks[0]| - 1;
    var obj := stacks[0][n];
    assert stacks[0] == stacks[0][..n] + [obj];
    StackedFront(stacks, stacks[0][..n]);
    StackedIncludes(stacks);
    assert multiset(stacks[0]) == multiset(stacks[0][..n]) + multiset{obj};
    Cancel(Stacked(stacks[0 := stacks[0][..n]]), Stacked(stacks), multiset(stacks[0][..n]), multiset{obj});
    assert obj in stacks[0] && Stacked(stacks)[obj] >= 1;
    assert (Stacked(stacks) + multiset(live))[obj] <= 1;
    assert obj in multiset(AllObjects(slabs, size));
    assert multiset(live + {obj}) == multiset(live) + multiset{obj};
  }

  lemma Cancel(a: multiset<nat>, b: multiset<nat>, c: multiset<nat>, e: multiset<nat>)
    requires a + (c + e) == b + c
    ensures a + e == b
  {
    forall x ensures (a + e)[x] == b[x] {
      assert (a + (c + e))[x] == (b + c)[x];
    }
  }

  lemma StackedIncludes(stacks: seq<seq<nat>>)
    requires stacks != []
    ensures forall x :: x in stacks[0] ==> Stacked(stacks)[x] >= 1
  {
  }

  /** Pushing a live object on the front stack. */
  lemma PushStep(slabs: seq<Slab>, stacks: seq<seq<nat>>, live: set<nat>, size: nat, total: int, used: int, obj: nat)
    requires Balanced(slabs, stacks, live, size, total, used) && obj in live && |stacks[0]| < KMEM_STACKSIZE
    ensures Balanced(slabs, stacks[0 := stacks[0] + [obj]], live - {obj}, size, total, used - 1)
    ensures obj in AllObjects(slabs, size)
  {
    hide Stacked, AllObjects, SlabsApart, Sum;
    StackedFront(stacks, stacks[0] + [obj]);
    assert multiset(stacks[0] + [obj]) == multiset(stacks[0]) + multiset{obj};
    Cancel(Stacked(stacks), Stacked(stacks[0 := stacks[0] + [obj]]), multiset(stacks[0]), multiset{obj});
    assert multiset(live) == multiset(live - {obj}) + multiset{obj};
    assert multiset(AllObjects(slabs, size))[obj] >= 1;
  }

  lemma FrontStep(slabs: seq<Slab>, stacks: seq<seq<nat>>, live: set<nat>, size: nat, total: int, used: int, i: nat)
    requires Balanced(slabs, stacks, live, size, total, used) && i < |stacks|
    ensures Balanced(slabs, ToFront(stacks, i), live, size, total, used)
  {
    hide Stacked, AllObjects, SlabsApart, Sum;
    ToFrontKeeps(stacks, i);
    forall j | 0 <= j < |stacks| ensures |ToFront(stacks, i)[j]| <= KMEM_STACKSIZE {
      assert ToFront(stacks, i)[j] in stacks;
    }
  }

  /** The objects of a new slab in the order in which they are loaded. */
  function Loaded(ptr: nat, n: nat, size: nat): (l: seq<nat>)
    requires size > 0
    ensures |l| == n && multiset(l) == multiset(Objects(ptr, n, size))
  {
    if n == 0 then [] else
      var top: nat := ptr + (n - 1) * size;
      assert top !in Objects(ptr, n - 1, size) && Objects(ptr, n, size) == Objects(ptr, n - 1, size) + {top};
      assert multiset(Objects(ptr, n, size)) == multiset(Objects(ptr, n - 1, size)) + multiset{top};
      Loaded(ptr, n - 1, size) + [top]
  }

  /** The memory of a new slab is disjoint from that of every old one. */
  ghost predicate FreshSlab(slabs: seq<Slab>, slab: Slab, size: nat) {
    && 1 <= slab.total <= KMEM_OBJECTS
    && forall i, x :: 0 <= i < |slabs| && InRange(slab, x, size) ==> !InRange(slabs[i], x, size)
  }

  /** A new slab and a new stack holding all its objects, linked second in the list. */
  lemma GrowStep(slabs: seq<Slab>, stacks: seq<seq<nat>>, live: set<nat>, size: nat, total: int, used: int, slab: Slab)
    requires Balanced(slabs, stacks, live, size, total, used) && FreshSlab(slabs, slab, size)
    ensures Balanced([slab] + slabs, InsertAt(stacks, 1, Loaded(slab.ptr, slab.total, size)), live, size, total + slab.total, used)
  {
    hide Stacked, AllObjects, Objects, Loaded, Sum;
    var all := [slab] + slabs;
    var l := Loaded(slab.ptr, slab.total, size);
    assert SlabsApart(all, size);
    hide SlabsApart;
    StackedInsert(stacks, 1, l);
    NewObjects(slabs, slab, size);
    assert all[1..] == slabs;
    SumFront(all);
  }

  lemma SumFront(slabs: seq<Slab>)
    requires slabs != []
    ensures Sum(slabs, TotalOf) == slabs[0].total + Sum(slabs[1..], TotalOf)
  {
  }

  lemma NewObjects(slabs: seq<Slab>, slab: Slab, size: nat)
    requires size > 0 && FreshSlab(slabs, slab, size)
    ensures multiset(AllObjects([slab] + slabs, size)) == multiset(AllObjects(slabs, size)) + multiset(SlabObjects(slab, size))
  {
    var all := [slab] + slabs;
    assert all[1..] == slabs;
    forall x | x in SlabObjects(slab, size) ensures x !in AllObjects(slabs, size) {
      ObjectOfSomeSlab(slabs, size, x);
      assert InRange(slab, x, size);
    }
    assert AllObjects(all, size) == SlabObjects(slab, size) + AllObjects(slabs, size);
  }

  // ---------- Usage ----------

  /** Only the slab whose range holds an object has it among its objects. */
  lemma UsageStep(slabs: seq<Slab>, live: set<nat>, size: nat, k: nat, obj: nat)
    requires size > 0 && SlabsApart(slabs, size) && UsageExact(slabs, live, size)
    requires k < |slabs| && InRange(slabs[k], obj, size) && obj in AllObjects(slabs, size)
    ensures obj in SlabObjects(slabs[k], size)
    ensures obj !in live ==> UsageExact(slabs[k := slabs[k].(usage := slabs[k].usage + 1)], live + {obj}, size)
    ensures obj in live ==> UsageExact(slabs[k := slabs[k].(usage := slabs[k].usage - 1)], live - {obj}, size)
  {
    hide UsageExact, AllObjects, SlabsApart, SlabObjects, InRange;
    OwnSlab(slabs, size, k, obj);
    if obj !in live {
      UsageChange(slabs, live, live + {obj}, size, k, obj, 1);
    } else {
      UsageChange(slabs, live, live - {obj}, size, k, obj, -1);
    }
  }

  lemma UsageChange(slabs: seq<Slab>, live: set<nat>, live': set<nat>, size: nat, k: nat, obj: nat, d: int)
    requires size > 0 && UsageExact(slabs, live, size) && k < |slabs|
    requires forall i :: 0 <= i < |slabs| ==> (obj in SlabObjects(slabs[i], size) <==> i == k)
    requires (d == 1 && obj !in live && live' == live + {obj}) || (d == -1 && obj in live && live' == live - {obj})
    ensures UsageExact(slabs[k := slabs[k].(usage := slabs[k].usage + d)], live', size)
  {
    hide Objects;
    var slabs' := slabs[k := slabs[k].(usage := slabs[k].usage + d)];
    forall i | 0 <= i < |slabs'| ensures slabs'[i].usage == |live' * SlabObjects(slabs'[i], size)| {
      assert SlabObjects(slabs'[i], size) == SlabObjects(slabs[i], size);
      hide SlabObjects;
      LiveChange(live, SlabObjects(slabs[i], size), obj);
    }
  }

  lemma LiveChange(live: set<nat>, o: set<nat>, obj: nat)
    ensures obj !in live ==> |(live + {obj}) * o| == |live * o| + (if obj in o then 1 else 0)
    ensures obj in live ==> |(live - {obj}) * o| == |live * o| - (if obj in o then 1 else 0)
  {
    if obj !in live {
      assert (live + {obj}) * o == live * o + (if obj in o then {obj} else {});
    } else {
      assert (live - {obj}) * o == live * o - (if obj in o then {obj} else {});
    }
  }

  lemma OwnSlab(slabs: seq<Slab>, size: nat, k: nat, obj: nat)
    requires size > 0 && SlabsApart(slabs, size)
    requires k < |slabs| && InRange(slabs[k], obj, size) && obj in AllObjects(slabs, size)
    ensures forall i :: 0 <= i < |slabs| ==> (obj in SlabObjects(slabs[i], size) <==> i == k)
  {
    hide Objects, AllObjects;
    ObjectOfSomeSlab(slabs, size, obj);
    var j :| 0 <= j < |slabs| && obj in SlabObjects(slabs[j], size);
    forall i | 0 <= i < |slabs| && obj in SlabObjects(slabs[i], size) ensures i == k {
      assert InRange(slabs[i], obj, size);
    }
  }

  /** A change of usage alone changes no object. */
  lemma UsageIrrelevant(slabs: seq<Slab>, stacks: seq<seq<nat>>, live: set<nat>, size: nat, total: int, used: int,
                        k: nat, u: int)
    requires Balanced(slabs, stacks, live, size, total, used) && k < |slabs|
    ensures Balanced(slabs[k := slabs[k].(usage := u)], stacks, live, size, total, used)
    ensures AllObjects(slabs[k := slabs[k].(usage := u)], size) == AllObjects(slabs, size)
  {
    hide Stacked, Objects;
    var slabs' := slabs[k := slabs[k].(usage := u)];
    SumUpdate(slabs, TotalOf, k, slabs[k].(usage := u));
    hide Sum;
    forall x ensures x in AllObjects(slabs', size) <==> x in AllObjects(slabs, size) {
      SameObjects(slabs, size, k, u, x);
    }
    hide AllObjects;
    ApartKept(slabs, size, k, u);
  }

  lemma ApartKept(slabs: seq<Slab>, size: nat, k: nat, u: int)
    requires SlabsApart(slabs, size) && k < |slabs|
    ensures SlabsApart(slabs[k := slabs[k].(usage := u)], size)
  {
    var slabs' := slabs[k := slabs[k].(usage := u)];
    assert forall i, x :: 0 <= i < |slabs| ==> (InRange(slabs'[i], x, size) <==> InRange(slabs[i], x, size));
  }

  lemma SameObjects(slabs: seq<Slab>, size: nat, k: nat, u: int, x: nat)
    requires size > 0 && k < |slabs|
    ensures x in AllObjects(slabs[k := slabs[k].(usage := u)], size) <==> x in AllObjects(slabs, size)
  {
    hide Objects, AllObjects;
    var slabs' := slabs[k := slabs[k].(usage := u)];
    ObjectOfSomeSlab(slabs, size, x);
    ObjectOfSomeSlab(slabs', size, x);
    assert forall i :: 0 <= i < |slabs| ==> SlabObjects(slabs'[i], size) == SlabObjects(slabs[i], size);
    if i :| 0 <= i < |slabs| && x in SlabObjects(slabs[i], size) {
      assert x in SlabObjects(slabs'[i], size);
    }
  }

  class Cache {
    const size: nat
    const lowMark: int
    var slabs: seq<Slab>
    var stacks: seq<seq<nat>>
    var total: int
    var used: int
    ghost var live: set<nat>

    ghost predicate Valid()
      reads this
    {
      size > 0 && Balanced(slabs, stacks, live, size, total, used) && UsageExact(slabs, live, size)
    }

    /** kmem_cache_create, when its first slab can be allocated and constructed. */
    constructor (size: nat, lowMark: int, ptr: nat, objects: nat)
      requires size > 0 && 1 <= objects <= KMEM_OBJECTS
      ensures Valid() && live == {} && this.size == size && this.lowMark == lowMark
    {
      this.size, this.lowMark := size, lowMark;
      slabs, stacks := [Slab(ptr, objects, 0)], [Loaded(ptr, objects, size)];
      total, used, live := objects, 0, {};
      new;
      OneSlab(Slab(ptr, objects, 0), size);
    }

    /** kmem_get_slab: the first slab whose range holds the address, if there is one; for an object there is. */
    method GetSlab(obj: nat) returns (k: Option<nat>)
      requires Valid()
      ensures k.Some? ==> k.value < |slabs| && InRange(slabs[k.value], obj, size)
      ensures k.Some? ==> forall i :: 0 <= i < k.value ==> !InRange(slabs[i], obj, size)
      ensures k.None? ==> forall i :: 0 <= i < |slabs| ==> !InRange(slabs[i], obj, size)
      ensures obj in AllObjects(slabs, size) ==> k.Some?
    {
      hide Objects, AllObjects, Balanced, UsageExact;
      ObjectOfSomeSlab(slabs, size, obj);
      assert forall i :: 0 <= i < |slabs| && obj in SlabObjects(slabs[i], size) ==> InRange(slabs[i], obj, size);
      var i := 0;
      while i < |slabs|
        invariant i <= |slabs| && forall j :: 0 <= j < i ==> !InRange(slabs[j], obj, size)
      {
        if slabs[i].ptr <= obj && obj < slabs[i].ptr + slabs[i].total * size {
          return Some(i);
        }
        i := i + 1;
      }
      return None;
    }

    /** The low-water part of kmem_cache_alloc: a new slab and stack, linked second, if memory allows. */
    method Grow(slab: Slab)
      requires Valid() && slab.usage == 0 && FreshSlab(slabs, slab, size)
      modifies this`slabs, this`stacks, this`total
      ensures Valid() && total == old(total) + slab.total && total > old(total)
      ensures AllObjects(old(slabs), size) <= AllObjects(slabs, size)
    {
      hide Balanced, UsageExact, AllObjects, Loaded, InsertAt;
      GrowMonotone(slabs, slab, size);
      GrowStep(slabs, stacks, live, size, total, used, slab);
      GrowUsage(slabs, stacks, live, size, total, used, slab);
      StacksExist(slabs, stacks, live, size, total, used);
      slabs := [slab] + slabs;
      stacks := InsertAt(stacks, 1, Loaded(slab.ptr, slab.total, size));
      total := total + slab.total;
    }

    /** kmem_cache_alloc. `slab` is what kmem_new_stack would obtain at the low-water mark, or None. */
    method Alloc(slab: Option<Slab>) returns (obj: Option<nat>)
      requires Valid() && (slab.Some? ==> slab.value.usage == 0 && FreshSlab(slabs, slab.value, size))
      modifies this
      ensures Valid()
      ensures obj.Some? ==>
        obj.value !in old(live) && live == old(live) + {obj.value} && obj.value in AllObjects(slabs, size)
      ensures obj.None? ==> live == old(live)
      ensures obj.None? <==> old(total) == old(used) && !(slab.Some? && lowMark == 0)
      ensures total == old(total) + if old(total) - old(used) == lowMark && slab.Some? then slab.value.total else 0
      ensures used == old(used) + (if obj.Some? then 1 else 0)
      ensures AllObjects(old(slabs), size) <= AllObjects(slabs, size)
    {
      hide Balanced, UsageExact, AllObjects, FreshSlab;
      StacksExist(slabs, stacks, live, size, total, used);
      if total - used == lowMark && slab.Some? {
        Grow(slab.value);
      }
      if total == used {
        return None;
      }
      StacksExist(slabs, stacks, live, size, total, used);
      SomeStackHasObject(slabs, stacks, live, size, total, used);
      var i := 0;
      ghost var j :| 0 <= j < |stacks| && stacks[j] != [];
      while stacks[i] == []
        invariant i <= j
        decreases j - i
      {
        i := i + 1;
      }
      if i > 0 {
        FrontStep(slabs, stacks, live, size, total, used, i);
        stacks := ToFront(stacks, i);
      }
      var o := Pop();
      return Some(o);
    }

    /** The tail of kmem_cache_alloc: takes the top object of the front stack and counts it in its slab. */
    method Pop() returns (obj: nat)
      requires Valid() && stacks != [] && stacks[0] != []
      modifies this
      ensures Valid() && obj !in old(live) && live == old(live) + {obj} && total == old(total) && used == old(used) + 1
      ensures obj in AllObjects(slabs, size) && AllObjects(slabs, size) == AllObjects(old(slabs), size)
    {
      hide Balanced, UsageExact, AllObjects;
      PopStep(slabs, stacks, live, size, total, used);
      var top := |stacks[0]| - 1;
      obj := stacks[0][top];
      var slab := GetSlab(obj);
      var k := slab.value;
      UsageStepAt(slabs, stacks, live, size, total, used, k, obj);
      stacks := stacks[0 := stacks[0][..top]];
      used, live := used + 1, live + {obj};
      UsageIrrelevant(slabs, stacks, live, size, total, used, k, slabs[k].usage + 1);
      slabs := slabs[k := slabs[k].(usage := slabs[k].usage + 1)];
    }

    /** kmem_cache_free of a live object. */
    method Free(obj: nat)
      requires Valid() && obj in live
      modifies this
      ensures Valid() && live == old(live) - {obj} && AllObjects(slabs, size) == AllObjects(old(slabs), size)
      ensures total == old(total) && used == old(used) - 1
    {
      hide Balanced, UsageExact, AllObjects;
      StacksExist(slabs, stacks, live, size, total, used);
      LiveAreObjects(slabs, stacks, live, size, total, used, obj);
      var slab := GetSlab(obj);
      var k := slab.value;
      SomeStackHasRoom(slabs, stacks, live, size, total, used);
      if |stacks[0]| == KMEM_STACKSIZE {
        ghost var j :| 0 <= j < |stacks| && |stacks[j]| < KMEM_STACKSIZE;
        var i := 1;
        while i < |stacks| && |stacks[i]| == KMEM_STACKSIZE
          invariant 1 <= i <= j
        {
          i := i + 1;
        }
        FrontStep(slabs, stacks, live, size, total, used, i);
        stacks := ToFront(stacks, i);
      }
      StacksExist(slabs, stacks, live, size, total, used);
      PushStep(slabs, stacks, live, size, total, used, obj);
      UsageStepAt(slabs, stacks, live, size, total, used, k, obj);
      used, live := used - 1, live - {obj};
      stacks := stacks[0 := stacks[0] + [obj]];
      UsageIrrelevant(slabs, stacks, live, size, total, used, k, slabs[k].usage - 1);
      slabs := slabs[k := slabs[k].(usage := slabs[k].usage - 1)];
    }

    /**
      kmem_cache_destroy: releases slabs and stacks in step, and so all of both; `destroyed` lists the
      objects given to the destructor.
     */
    method Destroy() returns (destroyed: seq<nat>)
      requires Valid()
      modifies this`slabs, this`stacks, this`total
      ensures slabs == [] && stacks == [] && total == 0
      ensures multiset(destroyed) == multiset(AllObjects(old(slabs), size))
    {
      hide Stacked, Objects, Sum, Loaded, UsageExact;
      destroyed := [];
      while slabs != [] && stacks != []
        invariant |slabs| == |stacks| && SlabsApart(slabs, size) && total == Sum(slabs, TotalOf)
        invariant multiset(destroyed) + multiset(AllObjects(slabs, size)) == multiset(AllObjects(old(slabs), size))
        decreases |slabs|
      {
        FirstSlab(slabs, size);
        SumFront(slabs);
        var slab := slabs[0];
        destroyed := destroyed + Loaded(slab.ptr, slab.total, size);
        total := total - slab.total;
        slabs, stacks := slabs[1..], stacks[1..];
      }
      NoSlabs(size);
    }
  }

  lemma NoSlabs(size: nat)
    requires size > 0
    ensures AllObjects([], size) == {} && Sum<Slab>([], TotalOf) == 0
  {
  }

  lemma FirstSlab(slabs: seq<Slab>, size: nat)
    requires size > 0 && slabs != [] && SlabsApart(slabs, size)
    ensures SlabsApart(slabs[1..], size)
    ensures multiset(AllObjects(slabs, size)) == multiset(SlabObjects(slabs[0], size)) + multiset(AllObjects(slabs[1..], size))
  {
    FirstSlabApart(slabs, size);
    hide Objects;
    assert AllObjects(slabs, size) == SlabObjects(slabs[0], size) + AllObjects(slabs[1..], size);
  }

  // ---------- Facts for the proofs of the methods ----------

  lemma OneSlab(slab: Slab, size: nat)
    requires size > 0 && slab.usage == 0 && 1 <= slab.total <= KMEM_OBJECTS
    ensures Balanced([slab], [Loaded(slab.ptr, slab.total, size)], {}, size, slab.total, 0)
    ensures UsageExact([slab], {}, size)
  {
    hide Objects, Loaded;
    var slabs, stacks := [slab], [Loaded(slab.ptr, slab.total, size)];
    assert |slabs[1..]| == 0 && |stacks[1..]| == 0;
    assert AllObjects(slabs, size) == SlabObjects(slab, size) + AllObjects(slabs[1..], size);
    assert Stacked(stacks) == multiset(stacks[0]) + Stacked(stacks[1..]);
    assert Sum(slabs, TotalOf) == slab.total + Sum(slabs[1..], TotalOf);
  }

  lemma StacksExist(slabs: seq<Slab>, stacks: seq<seq<nat>>, live: set<nat>, size: nat, total: int, used: int)
    requires Balanced(slabs, stacks, live, size, total, used)
    ensures |stacks| > 0 && |slabs| == |stacks| && size > 0 && used == |live| && used <= total
    ensures forall i :: 0 <= i < |stacks| ==> |stacks[i]| <= KMEM_STACKSIZE
  {
    PositionsSum(slabs, stacks, live, size, total, used);
  }

  lemma LiveAreObjects(slabs: seq<Slab>, stacks: seq<seq<nat>>, live: set<nat>, size: nat, total: int, used: int,
                       obj: nat)
    requires Balanced(slabs, stacks, live, size, total, used) && obj in live
    ensures obj in AllObjects(slabs, size) && used > 0
  {
    hide Stacked, AllObjects, SlabsApart, Sum;
    assert (Stacked(stacks) + multiset(live))[obj] >= 1;
    assert multiset(AllObjects(slabs, size))[obj] >= 1;
  }

  lemma GrowMonotone(slabs: seq<Slab>, slab: Slab, size: nat)
    requires size > 0
    ensures AllObjects(slabs, size) <= AllObjects([slab] + slabs, size)
  {
    assert ([slab] + slabs)[1..] == slabs;
  }

  lemma GrowUsage(slabs: seq<Slab>, stacks: seq<seq<nat>>, live: set<nat>, size: nat, total: int, used: int, slab: Slab)
    requires Balanced(slabs, stacks, live, size, total, used) && UsageExact(slabs, live, size)
    requires FreshSlab(slabs, slab, size) && slab.usage == 0
    ensures UsageExact([slab] + slabs, live, size)
  {
    hide Objects;
    forall x | x in live ensures x !in SlabObjects(slab, size) {
      LiveAreObjects(slabs, stacks, live, size, total, used, x);
      ObjectOfSomeSlab(slabs, size, x);
      assert x in SlabObjects(slab, size) ==> InRange(slab, x, size);
    }
    assert live * SlabObjects(slab, size) == {};
  }

  lemma UsageStepAt(slabs: seq<Slab>, stacks: seq<seq<nat>>, live: set<nat>, size: nat, total: int, used: int, k: nat,
                    obj: nat)
    requires Balanced(slabs, stacks, live, size, total, used) && UsageExact(slabs, live, size)
    requires k < |slabs| && InRange(slabs[k], obj, size) && obj in AllObjects(slabs, size)
    ensures obj !in live ==> UsageExact(slabs[k := slabs[k].(usage := slabs[k].usage + 1)], live + {obj}, size)
    ensures obj in live ==> UsageExact(slabs[k := slabs[k].(usage := slabs[k].usage - 1)], live - {obj}, size)
  {
    hide Stacked, AllObjects, UsageExact, SlabsApart;
    UsageStep(slabs, live, size, k, obj);
  }
}
