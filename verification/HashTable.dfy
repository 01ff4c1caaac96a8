/**
  The open-addressing hash table of kernel/src/ds/htable.c. A slot holds a pointer or NULL; `mem`
  tells whether the allocation hook succeeds if a call has to rehash.
 */
module HashTable {
  import opened Arith
  import opened Bits

  // ---------- The slot array as a list of elements ----------

  /** The filled slots from left to right. */
  function Elements<T>(s: seq<Option<T>>): seq<T> {
    if s == [] then []
    else
      var n := |s| - 1;
      Elements(s[..n]) + Slot(s[n])
  }

  function Slot<T>(x: Option<T>): seq<T> { if x.Some? then [x.value] else [] }

  lemma {:induction false} ElementsConcat<T>(a: seq<Option<T>>, b: seq<Option<T>>)
    ensures Elements(a + b) == Elements(a) + Elements(b)
  {
    if b == [] {
      assert a + b == a;
    } else {
      var n := |b| - 1;
      assert (a + b)[..|a + b| - 1] == a + b[..n];
      ElementsConcat(a, b[..n]);
    }
  }

  /** Writing one slot exchanges its old element for the new one. */
  lemma ElementsUpdate<T>(s: seq<Option<T>>, i: nat, x: Option<T>)
    requires i < |s|
    ensures multiset(Elements(s[i := x])) + multiset(Slot(s[i])) == multiset(Elements(s)) + multiset(Slot(x))
    ensures |Elements(s[i := x])| + |Slot(s[i])| == |Elements(s)| + |Slot(x)|
  {
    SplitAt(s, i);
    SplitAt(s[i := x], i);
    assert s[i := x][..i] == s[..i] && s[i := x][i + 1..] == s[i + 1..];
  }

  lemma ElementsClear<T>(s: seq<Option<T>>, i: nat, x: T)
    requires i < |s| && s[i] == Some(x)
    ensures multiset(Elements(s[i := None])) == multiset(Elements(s)) - multiset{x}
    ensures |Elements(s[i := None])| == |Elements(s)| - 1
  {
    hide Elements;
    ElementsUpdate(s, i, None);
    assert multiset(Elements(s[i := None])) + multiset{x} == multiset(Elements(s));
  }

  lemma ElementsTake<T>(s: seq<Option<T>>, i: nat)
    requires i < |s|
    ensures Elements(s[..i + 1]) == Elements(s[..i]) + Slot(s[i])
  {
    assert s[..i + 1][..i] == s[..i];
  }

  lemma SplitAt<T>(s: seq<Option<T>>, i: nat)
    requires i < |s|
    ensures Elements(s) == Elements(s[..i]) + Slot(s[i]) + Elements(s[i + 1..])
  {
    hide Elements, Slot;
    ElementsTake(s, i);
    assert s == s[..i + 1] + s[i + 1..];
    ElementsConcat(s[..i + 1], s[i + 1..]);
  }

  lemma {:induction false} ElementsBound<T>(s: seq<Option<T>>)
    ensures |Elements(s)| <= |s|
    ensures |Elements(s)| == |s| <==> forall i :: 0 <= i < |s| ==> s[i].Some?
  {
    if s != [] {
      ElementsBound(s[..|s| - 1]);
    }
  }

  lemma {:induction false} ElementsEmpty<T>(s: seq<Option<T>>)
    requires forall i :: 0 <= i < |s| ==> s[i].None?
    ensures Elements(s) == []
  {
    if s != [] {
      ElementsEmpty(s[..|s| - 1]);
    }
  }

  /** An element is listed exactly when some slot holds it. */
  lemma {:induction false} ElementsMember<T>(s: seq<Option<T>>, x: T)
    ensures x in Elements(s) <==> Some(x) in s
  {
    if s != [] {
      var n := |s| - 1;
      ElementsMember(s[..n], x);
      assert s == s[..n] + [s[n]];
    }
  }

  // ---------- Probing ----------

  /** The i-th position probed for a key. */
  function Probe(key: nat, i: nat, size: nat): (q: nat)
    requires size > 0
    ensures q < size
  {
    (i + key) % size
  }

  /** Every position is probed. */
  lemma ProbeCovers(key: nat, size: nat, q: nat)
    requires q < size
    ensures exists i :: 0 <= i < size && Probe(key, i, size) == q
  {
    var d := q - key;
    var i := d % size;
    assert i + key == (-(d / size)) * size + q;
    ModUnique(i + key, -(d / size), q, size);
    assert Probe(key, i, size) == q;
  }

  // ---------- Load ----------

  function Percent(n: nat, size: nat): nat
    requires size > 0
  {
    (n * 100) / size
  }

  lemma PercentBounds(n: nat, size: nat)
    requires size > 0
    ensures Percent(n, size) * size <= n * 100 < (Percent(n, size) + 1) * size
  {
    assert n * 100 == Percent(n, size) * size + (n * 100) % size;
  }

  lemma ProductMonotone(a: nat, b: nat, c: nat)
    requires a <= b
    ensures a * c <= b * c
  {
  }

  lemma PercentMonotone(a: nat, b: nat, size: nat)
    requires size > 0 && a <= b
    ensures Percent(a, size) <= Percent(b, size)
  {
    hide Percent;
    PercentBounds(a, size);
    PercentBounds(b, size);
    if Percent(a, size) > Percent(b, size) {
      ProductMonotone(Percent(b, size) + 1, Percent(a, size), size);
    }
  }

  lemma PercentBelow(n: nat, size: nat, bound: nat)
    requires size > 0
    ensures Percent(n, size) <= bound <==> n * 100 < (bound + 1) * size
  {
    hide Percent;
    PercentBounds(n, size);
    if Percent(n, size) <= bound {
      ProductMonotone(Percent(n, size) + 1, bound + 1, size);
    } else {
      ProductMonotone(bound + 1, Percent(n, size), size);
    }
  }

  /** Doubling a table that is not full leaves room under any limit of at least 50 percent. */
  lemma GrowFits(total: nat, size: nat, percent: nat)
    requires total < size && percent >= 50
    ensures Percent(total, size * 2) <= percent
  {
    PercentBelow(total, size * 2, percent);
    assert (percent + 1) * (size * 2) >= 51 * (size * 2);
  }

  /** Halving at a quarter of the limit leaves room under the limit. */
  lemma ShrinkFits(total: nat, size: nat, percent: nat)
    requires total > 0 && size > 32 && percent >= 50 && Percent(total - 1, size) < percent / 4
    ensures Percent(total, size / 2) <= percent
  {
    var q, h := percent / 4, size / 2;
    PercentBelow(total - 1, size, q - 1);
    HalfProduct(q, size, h);
    QuarterProduct(q, percent, h);
    PercentBelow(total, h, percent);
  }

  lemma HalfProduct(q: nat, size: nat, h: nat)
    requires size <= 2 * h + 1
    ensures q * size <= 2 * (q * h) + q
  {
    assert q * size <= q * (2 * h + 1);
  }

  lemma QuarterProduct(q: nat, percent: nat, h: nat)
    requires 4 * q <= percent && h >= 16 && percent >= 50
    ensures 2 * (q * h) + q + 100 <= (percent + 1) * h
  {
    assert 4 * (q * h) == (4 * q) * h <= percent * h;
    assert percent * h >= percent * 16;
  }

  class Table<T(==)> {
    const percent: nat
    const key: T -> int
    const compare: (T, T) -> bool
    var slots: array<Option<T>>
    var total: nat

    ghost predicate Valid()
      reads this, slots
    {
      slots.Length > 0 && total == |Elements(slots[..])|
    }

    /** The elements, as a multiset: what the table stands for. */
    ghost function Contents(): multiset<T>
      reads this, slots
    {
      multiset(Elements(slots[..]))
    }

    /** The table respects its load limit: true of every table whose rehashes all got their memory. */
    ghost predicate Light()
      reads this, slots
    {
      slots.Length > 0 && Percent(total, slots.Length) <= percent
    }

    /** init_htable. */
    constructor (size: int, percent: nat, key: T -> int, compare: (T, T) -> bool)
      ensures Valid() && Light() && fresh(slots) && Contents() == multiset{}
      ensures this.percent == percent && this.key == key && this.compare == compare
      ensures slots.Length == if size <= 0 then 32 else size
    {
      this.percent, this.key, this.compare, total := percent, key, compare, 0;
      var n := if size <= 0 then 32 else size;
      slots := new Option<T>[n](_ => None);
      new;
      hide Elements, Percent;
      PercentBelow(0, slots.Length, percent);
      ElementsEmpty(slots[..]);
    }

    function KeyOf(x: T): (k: nat) {
      var k := key(x);
      if k < 0 then -k else k
    }

    /** The probing loop of htable_insert. */
    method Put(data: T)
      requires Valid() && total < slots.Length
      modifies this`total, slots
      ensures Valid() && Contents() == old(Contents()) + multiset{data} && total == old(total) + 1
    {
      hide Elements;
      ghost var before := slots[..];
      var k := KeyOf(data);
      var i := 0;
      while i < slots.Length
        invariant i <= slots.Length && slots[..] == before && total == old(total)
        invariant forall j :: 0 <= j < i ==> slots[Probe(k, j, slots.Length)].Some?
      {
        var position := Probe(k, i, slots.Length);
        if slots[position].None? {
          ElementsUpdate(before, position, Some(data));
          slots[position] := Some(data);
          assert slots[..] == before[position := Some(data)];
          total := total + 1;
          return;
        }
        i := i + 1;
      }
      AllProbed(slots[..], k);
      assert false;
    }

    /** Half-way through a rehash of `count` elements into `newSize` slots, when `seen` have been moved. */
    ghost predicate Moving(seen: seq<T>, count: nat, newSize: nat)
      reads this, slots
    {
      && Valid() && slots.Length >= newSize > 0 && Contents() <= multiset(seen) && total <= |seen|
      && (percent < 100 || count <= newSize ==> Contents() == multiset(seen) && total == |seen|)
      && (percent < 100 ==> total < slots.Length)
      && (percent >= 100 ==> slots.Length == newSize && total == |First(seen, newSize)|)
      && (percent >= 100 ==> Contents() == multiset(First(seen, newSize)))
      && (percent < 100 && Percent(count, newSize) <= percent ==> slots.Length == newSize)
    }

    /** One round of htable_rehash. */
    method Reinsert(x: T, ghost seen: seq<T>, ghost count: nat, ghost newSize: nat)
      requires Moving(seen, count, newSize) && |seen| < count
      modifies this, slots
      ensures Moving(seen + [x], count, newSize) && (slots == old(slots) || fresh(slots))
      decreases total, 2
    {
      hide Elements, Percent;
      SubsetGrows(Contents(), multiset(seen), x);
      FirstGrows(seen, x, newSize);
      if percent < 100 && Percent(count, newSize) <= percent {
        PercentMonotone(|seen| + 1, count, newSize);
      }
      var rc := Insert(x, true);
    }

    /**
      htable_rehash. Below a limit of 100 percent nothing is lost, since an insert that would fill the
      new table rehashes again; from 100 on, only as many elements survive as the new table has slots.
     */
    method Rehash(newSize: nat, mem: bool) returns (ok: bool)
      requires Valid() && newSize > 0
      modifies this
      ensures Valid() && ok == mem
      ensures !ok ==> slots == old(slots) && slots[..] == old(slots[..]) && total == old(total)
      ensures ok ==> fresh(slots) && slots.Length >= newSize && Contents() <= old(Contents())
      ensures ok && (percent < 100 || old(total) <= newSize) ==> Contents() == old(Contents()) && total == old(total)
      ensures ok && percent >= 100 ==>
        slots.Length == newSize && Contents() == multiset(First(old(Elements(slots[..])), newSize))
      ensures ok && percent < 100 ==> total < slots.Length
      ensures ok && percent < 100 && Percent(old(total), newSize) <= percent ==> slots.Length == newSize
      decreases total, 0
    {
      hide Elements, Percent;
      if !mem {
        return false;
      }
      var oldSlots := slots;
      ghost var before := slots[..];
      ghost var count := total;
      slots := new Option<T>[newSize](_ => None);
      total := 0;
      ElementsEmpty(slots[..]);
      var i := 0;
      EmptyPrefix(before);
      assert First<T>([], newSize) == [];
      assert Moving([], count, newSize);
      hide Moving;
      while i < oldSlots.Length
        invariant i <= oldSlots.Length == |before| && oldSlots[..] == before
        invariant fresh(slots) && slots != oldSlots && Moving(Elements(before[..i]), count, newSize)
      {
        ElementsTake(before, i);
        if oldSlots[i].Some? {
          FewerBefore(before, i);
          SeenTotal(Elements(before[..i]), count, newSize);
          Reinsert(oldSlots[i].value, Elements(before[..i]), count, newSize);
        } else {
          assert Elements(before[..i]) + [] == Elements(before[..i]);
        }
        i := i + 1;
      }
      assert before[..i] == before;
      Moved(Elements(before), count, newSize);
      return true;
    }

    lemma SeenTotal(seen: seq<T>, count: nat, newSize: nat)
      requires Moving(seen, count, newSize)
      ensures total <= |seen|
    {
    }

    /** What a rehash has done in the end. */
    lemma Moved(seen: seq<T>, count: nat, newSize: nat)
      requires Moving(seen, count, newSize) && count == |seen|
      ensures Valid() && slots.Length >= newSize && Contents() <= multiset(seen)
      ensures percent < 100 || count <= newSize ==> Contents() == multiset(seen) && total == count
      ensures percent >= 100 ==> slots.Length == newSize && Contents() == multiset(First(seen, newSize))
      ensures percent < 100 ==> total < slots.Length
      ensures percent < 100 && Percent(count, newSize) <= percent ==> slots.Length == newSize
    {
    }

    /** htable_insert, for every load limit. Below 100 percent a table that is not full never becomes so. */
    method Insert(data: T, mem: bool) returns (rc: int)
      requires Valid()
      modifies this, slots
      ensures Valid() && (rc == 0 || rc == -1)
      ensures rc == -1 <==> old(total) == old(slots.Length)
      ensures rc == -1 ==> Contents() == old(Contents()) && slots == old(slots) && total == old(total)
      ensures rc == 0 ==> Contents() == old(Contents()) + multiset{data} && total == old(total) + 1
      ensures percent < 100 && old(total) < old(slots.Length) && mem ==> total < slots.Length
      ensures old(Light()) && percent < 100 ==> rc == 0
      ensures old(Light()) && 50 <= percent < 100 && (mem || Percent(old(total) + 1, old(slots.Length)) <= percent) ==>
        Light()
      ensures (slots == old(slots) || fresh(slots)) && slots.Length >= old(slots.Length)
      ensures Percent(old(total) + 1, old(slots.Length)) <= percent || percent >= 100 ==> slots == old(slots)
      decreases total, 1
    {
      hide Elements, Percent;
      LightHasRoom(total, slots.Length, percent);
      if total == slots.Length {
        return -1;
      }
      ElementsBound(slots[..]);
      PercentRoom(total, slots.Length, percent);
      var currentPercent := Percent(total + 1, slots.Length);
      if currentPercent > percent {
        if percent >= 50 {
          GrowFits(total, slots.Length, percent);
          GrowLight(total, slots.Length, percent);
        }
        var ok := Rehash(slots.Length * 2, mem);
      }
      Put(data);
      return 0;
    }

    /** The shrinking test of htable_remove. */
    predicate Shrinks()
      reads this
      requires slots.Length > 0
    {
      total > 0 && Percent(total - 1, slots.Length) < percent / 4 && slots.Length > 32
    }

    /**
      htable_remove: takes out one occurrence of the pointer, and reports success even when there is
      none. From a limit of 100 percent on, shrinking may lose other elements.
     */
    method Remove(data: T, mem: bool) returns (rc: int)
      requires Valid()
      modifies this, slots
      ensures Valid() && rc == if old(total) == 0 then -1 else 0
      ensures percent < 100 || !mem || old(!Shrinks()) || old(total) <= old(slots.Length) / 2 ==>
        Contents() == old(Contents()) - multiset{data}
      ensures percent >= 100 && mem && old(Shrinks()) ==>
        Contents() == multiset(First(old(Elements(slots[..])), old(slots.Length) / 2)) - multiset{data}
      ensures old(Light()) && 50 <= percent < 100 ==> Light()
      ensures slots == old(slots) || fresh(slots)
    {
      hide Elements, Percent;
      if total == 0 {
        ElementsNone(slots[..]);
        return -1;
      }
      var currentPercent := Percent(total - 1, slots.Length);
      if currentPercent < percent / 4 && slots.Length > 32 {
        if 50 <= percent < 100 {
          ShrinkFits(total, slots.Length, percent);
        }
        var ok := Rehash(slots.Length / 2, mem);
      }
      ghost var n := total;
      TakeOut(data);
      PercentMonotone(total, n, slots.Length);
      return 0;
    }

    /** The probing loop of htable_remove. */
    method TakeOut(data: T)
      requires Valid()
      modifies this`total, slots
      ensures Valid() && Contents() == old(Contents()) - multiset{data} && total <= old(total)
    {
      hide Elements, Percent;
      ghost var before := slots[..];
      var k := KeyOf(data);
      var i := 0;
      while i < slots.Length
        invariant i <= slots.Length && slots[..] == before && total == old(total) && Valid()
        invariant forall j :: 0 <= j < i ==> slots[Probe(k, j, slots.Length)] != Some(data)
      {
        var position := Probe(k, i, slots.Length);
        if slots[position] == Some(data) {
          ElementsClear(before, position, data);
          slots[position] := None;
          assert slots[..] == before[position := None];
          total := total - 1;
          return;
        }
        i := i + 1;
      }
      NotProbed(before, k, data);
    }

    /** htable_retrieve: finds a match if and only if there is one, whatever the keys are. */
    method Retrieve(sample: T) returns (r: Option<T>)
      requires Valid()
      ensures r.Some? ==> r.value in Contents() && compare(r.value, sample)
      ensures r.None? ==> forall x :: x in Contents() ==> !compare(x, sample)
    {
      hide Elements;
      ghost var s := slots[..];
      if total == 0 {
        return None;
      }
      var k := KeyOf(sample);
      var i := 0;
      while i < slots.Length
        invariant i <= slots.Length
        invariant forall j :: 0 <= j < i ==> Misses(slots[Probe(k, j, slots.Length)], sample)
      {
        var position := Probe(k, i, slots.Length);
        if slots[position].Some? && compare(slots[position].value, sample) {
          assert s[position] == Some(slots[position].value);
          ElementsMember(s, slots[position].value);
          return slots[position];
        }
        i := i + 1;
      }
      forall x | x in Contents() ensures !compare(x, sample) {
        ElementsMember(s, x);
        var q :| 0 <= q < |s| && s[q] == Some(x);
        ProbeCovers(k, slots.Length, q);
        var j :| 0 <= j < slots.Length && Probe(k, j, slots.Length) == q;
        assert Misses(slots[Probe(k, j, slots.Length)], sample);
      }
      return None;
    }

    predicate Misses(x: Option<T>, sample: T) { x.None? || !compare(x.value, sample) }

    /** htable_get: enumerates the elements, each once, by their rank. */
    method Get(num: int) returns (r: Option<T>)
      requires Valid()
      ensures r == if 0 <= num < |Elements(slots[..])| then Some(Elements(slots[..])[num]) else None
    {
      hide Elements;
      ghost var s := slots[..];
      if total == 0 || num >= total {
        return None;
      }
      var i, count := 0, 0;
      EmptyPrefix(s);
      while i < slots.Length
        invariant i <= slots.Length && count == |Elements(s[..i])|
        invariant num < 0 || count <= num
      {
        ElementsTake(s, i);
        SplitAt(s, i);
        if slots[i].Some? {
          if count == num {
            return slots[i];
          }
          count := count + 1;
        }
        i := i + 1;
      }
      assert s[..i] == s;
      return None;
    }
  }

  /** Probing every position found none free, so the table is full. */
  lemma AllProbed<T>(s: seq<Option<T>>, k: nat)
    requires |s| > 0 && forall j :: 0 <= j < |s| ==> s[Probe(k, j, |s|)].Some?
    ensures |Elements(s)| == |s|
  {
    forall q | 0 <= q < |s| ensures s[q].Some? {
      ProbeCovers(k, |s|, q);
    }
    ElementsBound(s);
  }

  /** Probing every position did not meet the pointer, so it is not in the table. */
  lemma NotProbed<T>(s: seq<Option<T>>, k: nat, x: T)
    requires |s| > 0 && forall j :: 0 <= j < |s| ==> s[Probe(k, j, |s|)] != Some(x)
    ensures x !in multiset(Elements(s))
    ensures multiset(Elements(s)) - multiset{x} == multiset(Elements(s))
  {
    forall q | 0 <= q < |s| ensures s[q] != Some(x) {
      ProbeCovers(k, |s|, q);
    }
    ElementsMember(s, x);
  }

  lemma ElementsNone<T>(s: seq<Option<T>>)
    requires |Elements(s)| == 0
    ensures multiset(Elements(s)) == multiset{}
  {
  }

  lemma EmptyPrefix<T>(s: seq<Option<T>>)
    ensures Elements(s[..0]) == []
  {
  }

  lemma LightHasRoom(total: nat, size: nat, percent: nat)
    requires size > 0
    ensures percent < 100 && Percent(total, size) <= percent ==> total < size
  {
    PercentBelow(total, size, percent);
    if percent < 100 {
      ProductMonotone(percent + 1, 100, size);
    }
  }

  /** A slot more in a table that is not full is at most 100 percent. */
  lemma PercentRoom(total: nat, size: nat, percent: nat)
    requires size > 0 && total < size
    ensures percent >= 100 ==> Percent(total + 1, size) <= percent
    ensures percent < 100 && Percent(total + 1, size) <= percent ==> total + 1 < size
  {
    LightHasRoom(total + 1, size, percent);
    PercentBelow(total + 1, size, percent);
    if percent >= 100 {
      ProductMonotone(101, percent + 1, size);
    }
  }

  /** The first `n` elements, or all if there are fewer. */
  function First<T>(s: seq<T>, n: nat): seq<T> { if |s| <= n then s else s[..n] }

  lemma FirstGrows<T>(s: seq<T>, x: T, n: nat)
    ensures First(s + [x], n) == if |s| < n then First(s, n) + [x] else First(s, n)
  {
  }

  lemma SubsetGrows<T>(a: multiset<T>, b: multiset<T>, x: T)
    requires a <= b
    ensures a <= b + multiset{x} && a + multiset{x} <= b + multiset{x}
  {
  }

  lemma FewerBefore<T>(s: seq<Option<T>>, i: nat)
    requires i < |s| && s[i].Some?
    ensures |Elements(s[..i])| < |Elements(s)|
  {
    hide Elements;
    SplitAt(s, i);
  }

  lemma GrowLight(total: nat, size: nat, percent: nat)
    requires 0 < size && total < size && percent >= 50
    ensures Percent(total + 1, size * 2) <= percent
  {
    PercentBelow(total + 1, size * 2, percent);
    assert (percent + 1) * (size * 2) >= 51 * (size * 2);
  }
}
