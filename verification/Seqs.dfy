/** Insertion into and removal from the middle of a list: the linked-list and array edits of the sources. */
module Seqs {

  function InsertAt<T>(s: seq<T>, i: nat, x: T): (r: seq<T>)
    requires i <= |s|
    ensures |r| == |s| + 1 && r[i] == x
    ensures forall j :: 0 <= j < i ==> r[j] == s[j]
    ensures forall j :: i < j < |r| ==> r[j] == s[j - 1]
  {
    s[..i] + [x] + s[i..]
  }

  function RemoveAt<T>(s: seq<T>, i: nat): (r: seq<T>)
    requires i < |s|
    ensures |r| == |s| - 1
    ensures forall j :: 0 <= j < i ==> r[j] == s[j]
    ensures forall j :: i <= j < |r| ==> r[j] == s[j + 1]
  {
    s[..i] + s[i + 1..]
  }

  lemma InsertContents<T>(s: seq<T>, i: nat, x: T)
    requires i <= |s|
    ensures multiset(InsertAt(s, i, x)) == multiset(s) + multiset{x}
    ensures forall y :: y in InsertAt(s, i, x) <==> y in s || y == x
  {
    assert s == s[..i] + s[i..];
    assert forall y :: y in InsertAt(s, i, x) <==> y in multiset(InsertAt(s, i, x));
  }

  ghost predicate NoDup<T>(s: seq<T>) {
    forall i, j :: 0 <= i < j < |s| ==> s[i] != s[j]
  }

  lemma RemoveDistinct<T>(s: seq<T>, i: nat)
    requires i < |s| && NoDup(s)
    ensures NoDup(RemoveAt(s, i))
    ensures forall y :: y in RemoveAt(s, i) <==> y in s && y != s[i]
  {
    var r := RemoveAt(s, i);
    forall y | y in s && y != s[i] ensures y in r {
      var j :| 0 <= j < |s| && s[j] == y;
      assert r[if j < i then j else j - 1] == y;
    }
  }

  /** A duplicate-free list is no longer than the set that it draws from. */
  lemma {:induction false} Pigeonhole<T>(l: seq<T>, all: set<T>)
    requires NoDup(l) && forall x :: x in l ==> x in all
    ensures |l| <= |all|
  {
    if l != [] {
      var n := |l| - 1;
      var last := l[n];
      assert last in l && l == l[..n] + [last];
      Pigeonhole(l[..n], all - {last});
    }
  }

  /** The index of the first occurrence of `x`, found by the scan loops of the sources. */
  method Find<T(==)>(s: seq<T>, x: T) returns (i: nat)
    ensures i <= |s|
    ensures i < |s| ==> s[i] == x
    ensures x !in s[..i]
    ensures i == |s| <==> x !in s
  {
    i := 0;
    while i < |s| && s[i] != x
      invariant i <= |s|
      invariant x !in s[..i]
    {
      i := i + 1;
    }
  }

  /** The list without the first occurrence of `x`: unlinking a list node. */
  function Without<T(==)>(s: seq<T>, x: T): (r: seq<T>)
    ensures x !in s ==> r == s
  {
    if s == [] then [] else if s[0] == x then s[1..] else [s[0]] + Without(s[1..], x)
  }

  lemma {:induction false} WithoutDistinct<T>(s: seq<T>, x: T)
    requires NoDup(s)
    ensures NoDup(Without(s, x))
    ensures forall y :: y in Without(s, x) <==> y in s && y != x
  {
    if s != [] {
      var t := s[1..];
      assert s == [s[0]] + t;
      assert NoDup(t);
      WithoutDistinct(t, x);
      assert s[0] !in t;
    }
  }

  lemma {:induction false} WithoutLength<T>(s: seq<T>, x: T)
    requires x in s
    ensures |Without(s, x)| == |s| - 1
  {
    if s[0] != x {
      WithoutLength(s[1..], x);
    }
  }

  lemma {:induction false} WithoutIsRemoveAt<T>(s: seq<T>, k: nat)
    requires k < |s| && s[k] !in s[..k]
    ensures Without(s, s[k]) == RemoveAt(s, k)
  {
    if k > 0 {
      assert s[0] in s[..k];
      assert s[1..][..k - 1] == s[..k][1..];
      WithoutIsRemoveAt(s[1..], k - 1);
      assert RemoveAt(s, k) == [s[0]] + RemoveAt(s[1..], k - 1);
    }
  }

  // ---------- Sums over a list ----------

  function Sum<T>(s: seq<T>, f: T -> nat): nat {
    if s == [] then 0 else f(s[0]) + Sum(s[1..], f)
  }

  lemma {:induction false} SumInsert<T>(s: seq<T>, f: T -> nat, i: nat, x: T)
    requires i <= |s|
    ensures Sum(InsertAt(s, i, x), f) == Sum(s, f) + f(x)
  {
    var r := InsertAt(s, i, x);
    if i == 0 {
      assert r[1..] == s;
    } else {
      assert r[1..] == InsertAt(s[1..], i - 1, x);
      SumInsert(s[1..], f, i - 1, x);
    }
  }

  lemma {:induction false} SumRemove<T>(s: seq<T>, f: T -> nat, i: nat)
    requires i < |s|
    ensures Sum(RemoveAt(s, i), f) == Sum(s, f) - f(s[i])
  {
    assert InsertAt(RemoveAt(s, i), i, s[i]) == s;
    SumInsert(RemoveAt(s, i), f, i, s[i]);
  }

  lemma {:induction false} SumUpdate<T>(s: seq<T>, f: T -> nat, i: nat, x: T)
    requires i < |s|
    ensures Sum(s[i := x], f) == Sum(s, f) - f(s[i]) + f(x)
  {
    SumRemove(s, f, i);
    assert InsertAt(RemoveAt(s, i), i, x) == s[i := x];
    SumInsert(RemoveAt(s, i), f, i, x);
  }

  lemma {:induction false} SumAppend<T>(s: seq<T>, f: T -> nat, x: T)
    ensures Sum(s + [x], f) == Sum(s, f) + f(x)
  {
    assert s + [x] == InsertAt(s, |s|, x);
    SumInsert(s, f, |s|, x);
  }
}
