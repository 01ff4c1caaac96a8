/**
  The paged FIFO queue of kernel/src/ds/aqueue.c. A queue is a list of pages of `count` slots; the
  positions count slots from the start of the first page. The last page of the list is `last_page`.
 */
module PagedQueue {
  import opened Arith
  import opened Bits

  datatype Queue<T> = Queue(pages: seq<seq<T>>, position: nat, last: nat, staging: bool)

  // ---------- Pages as one row of slots ----------

  function Flat<T>(pages: seq<seq<T>>): seq<T> {
    if pages == [] then [] else pages[0] + Flat(pages[1..])
  }

  ghost predicate Full<T>(pages: seq<seq<T>>, count: nat) {
    forall i :: 0 <= i < |pages| ==> |pages[i]| == count
  }

  lemma {:induction false} FlatLength<T>(pages: seq<seq<T>>, count: nat)
    requires Full(pages, count)
    ensures |Flat(pages)| == |pages| * count
  {
    if pages != [] {
      FlatLength(pages[1..], count);
      assert |pages| * count == count + (|pages| - 1) * count;
    }
  }

  lemma {:induction false} FlatConcat<T>(a: seq<seq<T>>, b: seq<seq<T>>)
    ensures Flat(a + b) == Flat(a) + Flat(b)
  {
    if a == [] {
      assert a + b == b;
    } else {
      assert (a + b)[1..] == a[1..] + b;
      FlatConcat(a[1..], b);
    }
  }

  lemma FlatOne<T>(p: seq<T>)
    ensures Flat([p]) == p
  {
    assert [p][1..] == [];
    assert Flat([p]) == p + Flat([p][1..]);
  }

  /** The slots of the last page are the tail of the row. */
  lemma FlatLast<T>(pages: seq<seq<T>>)
    requires pages != []
    ensures Flat(pages) == Flat(pages[..|pages| - 1]) + pages[|pages| - 1]
  {
    var n := |pages| - 1;
    assert pages == pages[..n] + [pages[n]];
    FlatConcat(pages[..n], [pages[n]]);
    FlatOne(pages[n]);
  }

  // ---------- The operations on values ----------

  /** aqueue_init. */
  function Empty<T>(): Queue<T> { Queue([], 0, 0, false) }

  predicate NeedsPage<T>(q: Queue<T>, count: nat)
    requires count > 0
  {
    q.last % count == 0 && |q.pages| <= q.last / count
  }

  /** aqueue_new when its allocation succeeds; `blank` is the content of the new page. */
  function Staged<T>(q: Queue<T>, count: nat, blank: seq<T>): Queue<T>
    requires count > 0
  {
    if NeedsPage(q, count) then q.(pages := q.pages + [blank], staging := true) else q.(staging := true)
  }

  /** The caller fills in the slot that aqueue_new returned: the one at `last` in the last page. */
  function Filled<T>(q: Queue<T>, count: nat, x: T): Queue<T>
    requires count > 0 && q.pages != [] && |q.pages[|q.pages| - 1]| == count
  {
    var n := |q.pages| - 1;
    q.(pages := q.pages[n := q.pages[n][q.last % count := x]])
  }

  /** aqueue_save. */
  function Saved<T>(q: Queue<T>): Queue<T> {
    if !q.staging then q else q.(last := q.last + 1, staging := false)
  }

  /** aqueue_unlock without a save: the staged slot is dropped. */
  function Discarded<T>(q: Queue<T>): Queue<T> { q.(staging := false) }

  /** aqueue_next on an empty queue. */
  function Rewound<T>(q: Queue<T>): Queue<T> { q.(position := 0, last := 0) }

  /** aqueue_next on a queue that is not empty: frees the pages already read and steps over one slot. */
  function Stepped<T>(q: Queue<T>, count: nat): Queue<T>
    requires count > 0 && q.position / count <= |q.pages| && q.position / count * count <= q.position < q.last
  {
    var d := q.position / count;
    q.(pages := q.pages[d..], position := q.position - d * count + 1, last := q.last - d * count)
  }

  // ---------- What a queue stands for ----------

  ghost predicate Valid<T>(q: Queue<T>, count: nat) {
    && count > 0 && Full(q.pages, count)
    && q.position <= q.last && q.position <= count && !q.staging
    && q.last <= |q.pages| * count
    && (|q.pages| > 1 ==> (|q.pages| - 1) * count < q.last)
  }

  /** The objects waiting in the queue, oldest first. */
  ghost function Contents<T>(q: Queue<T>, count: nat): seq<T>
    requires Valid(q, count)
  {
    FlatLength(q.pages, count);
    Flat(q.pages)[q.position..q.last]
  }

  /** The number of pages is bounded by the live objects. */
  lemma PagesBounded<T>(q: Queue<T>, count: nat)
    requires Valid(q, count)
    ensures |q.pages| >= 2 ==> (|q.pages| - 2) * count < |Contents(q, count)|
  {
    FlatLength(q.pages, count);
    if |q.pages| >= 2 {
      assert (|q.pages| - 1) * count == (|q.pages| - 2) * count + count;
    }
  }

  /** A queue needs a page exactly when its last page is used up. */
  lemma NeedsPageIffUsedUp<T>(q: Queue<T>, count: nat)
    requires Valid(q, count)
    ensures NeedsPage(q, count) <==> q.last == |q.pages| * count
    ensures !NeedsPage(q, count) ==> |q.pages| > 0 && q.last == (|q.pages| - 1) * count + q.last % count
  {
    var n := |q.pages|;
    if q.last == n * count {
      DivUnique(q.last, n, 0, count);
    } else {
      var m := q.last - (n - 1) * count;
      assert n * count == (n - 1) * count + count;
      DivUnique(q.last, n - 1, m, count);
    }
  }

  /** new, fill, save appends one object at the back, across page growth. */
  lemma PushAppends<T>(q: Queue<T>, count: nat, blank: seq<T>, x: T)
    requires Valid(q, count) && |blank| == count
    ensures var s := Staged(q, count, blank);
            && s.pages != [] && |s.pages[|s.pages| - 1]| == count
            && Valid(Saved(Filled(s, count, x)), count)
            && Contents(Saved(Filled(s, count, x)), count) == Contents(q, count) + [x]
  {
    hide Flat;
    NeedsPageIffUsedUp(q, count);
    var s := Staged(q, count, blank);
    var n := |s.pages| - 1;
    var r := Saved(Filled(s, count, x));
    FlatLength(q.pages, count);
    assert Full(s.pages, count);
    assert |s.pages| * count == n * count + count;
    if NeedsPage(q, count) {
      FlatConcat(q.pages, [blank]);
      FlatOne(blank);
      assert s.pages[..n] == q.pages;
      ModUnique(q.last, n, 0, count);
    }
    assert q.last == n * count + q.last % count;
    FillWrites(s, count, x);
    FlatLength(s.pages, count);
    FlatLength(r.pages, count);
    assert Flat(r.pages)[..q.last] == Flat(q.pages)[..q.last];
    assert Contents(r, count) == Contents(q, count) + [x];
  }

  lemma FillWrites<T>(q: Queue<T>, count: nat, x: T)
    requires count > 0 && Full(q.pages, count) && q.pages != []
    requires q.last == (|q.pages| - 1) * count + q.last % count
    ensures q.last < |Flat(q.pages)|
    ensures Flat(Filled(q, count, x).pages) == Flat(q.pages)[q.last := x]
  {
    hide Flat;
    var n := |q.pages| - 1;
    var f := Filled(q, count, x).pages;
    FlatLast(q.pages);
    FlatLast(f);
    assert f[..n] == q.pages[..n];
    FlatLength(q.pages[..n], count);
  }

  /** Reading inside the first page frees nothing; reading at its end frees it. */
  lemma ReadPage<T>(q: Queue<T>, count: nat)
    requires Valid(q, count) && q.position < q.last
    ensures var d := q.position / count;
            && d == (if q.position == count then 1 else 0) && d * count <= q.position
            && q.position % count == q.position - d * count && d < |q.pages|
  {
    if q.position == count {
      DivUnique(q.position, 1, 0, count);
    } else {
      DivUnique(q.position, 0, q.position, count);
    }
    assert |q.pages| == 1 ==> q.last <= count;
  }

  /** next removes the oldest object, across page freeing. */
  lemma NextRemoves<T>(q: Queue<T>, count: nat)
    requires Valid(q, count) && q.position < q.last
    ensures q.position / count < |q.pages| && q.position / count * count <= q.position
    ensures |Contents(q, count)| > 0
    ensures q.position % count < |q.pages[q.position / count]|
    ensures q.pages[q.position / count][q.position % count] == Contents(q, count)[0]
    ensures Valid(Stepped(q, count), count) && Contents(Stepped(q, count), count) == Contents(q, count)[1..]
  {
    ReadPage(q, count);
    FlatLength(q.pages, count);
    if q.position == count {
      StepBoundary(q, count);
    } else {
      StepInside(q, count);
    }
  }

  lemma StepInside<T>(q: Queue<T>, count: nat)
    requires Valid(q, count) && q.position < q.last && q.position < count && q.pages != []
    requires q.position / count == 0 && q.position % count == q.position
    ensures |Contents(q, count)| > 0 && q.pages[0][q.position] == Contents(q, count)[0]
    ensures Valid(Stepped(q, count), count) && Contents(Stepped(q, count), count) == Contents(q, count)[1..]
  {
    FlatLength(q.pages, count);
    assert Flat(q.pages) == q.pages[0] + Flat(q.pages[1..]);
    hide Flat;
    assert q.pages[0..] == q.pages;
  }

  lemma StepBoundary<T>(q: Queue<T>, count: nat)
    requires Valid(q, count) && q.position == count < q.last && |q.pages| > 1
    requires q.position / count == 1 && q.position % count == 0
    ensures |Contents(q, count)| > 0 && q.pages[1][0] == Contents(q, count)[0]
    ensures Valid(Stepped(q, count), count) && Contents(Stepped(q, count), count) == Contents(q, count)[1..]
  {
    FlatLength(q.pages, count);
    FlatLength(q.pages[1..], count);
    assert Flat(q.pages) == q.pages[0] + Flat(q.pages[1..]);
    assert Flat(q.pages[1..]) == q.pages[1] + Flat(q.pages[1..][1..]);
    hide Flat;
    assert |q.pages[1..]| * count == |q.pages| * count - count;
    assert (|q.pages[1..]| - 1) * count == (|q.pages| - 1) * count - count;
  }

  /** aqueue_next: the object it returns and the queue it leaves. */
  function Taken<T>(q: Queue<T>, count: nat): (Option<T>, Queue<T>)
    requires Valid(q, count)
  {
    if q.position == q.last then (None, Rewound(q))
    else
      ReadPage(q, count);
      (Some(q.pages[q.position / count][q.position % count]), Stepped(q, count))
  }

  /** new, fill and save in one. */
  function Pushed<T>(q: Queue<T>, count: nat, blank: seq<T>, x: T): Queue<T>
    requires Valid(q, count) && |blank| == count
  {
    PushAppends(q, count, blank, x);
    Saved(Filled(Staged(q, count, blank), count, x))
  }

  /** The paged queue refines a FIFO sequence. */
  lemma QueueRefinesFifo<T>(q: Queue<T>, count: nat, blank: seq<T>, x: T)
    requires Valid(q, count) && |blank| == count
    ensures Valid(Pushed(q, count, blank, x), count)
    ensures Contents(Pushed(q, count, blank, x), count) == Contents(q, count) + [x]
    ensures var (r, q') := Taken(q, count);
            && Valid(q', count)
            && (if Contents(q, count) == [] then r.None? && Contents(q', count) == []
                else r == Some(Contents(q, count)[0]) && Contents(q', count) == Contents(q, count)[1..])
  {
    PushAppends(q, count, blank, x);
    ItemsLength(q, count);
    hide Valid, Contents, Stepped, Rewound, Staged, Saved, Filled;
    if q.position == q.last {
      RewindKeeps(q, count);
    } else {
      NextRemoves(q, count);
    }
  }

  /** The empty reset keeps the queue empty and usable. */
  lemma RewindKeeps<T>(q: Queue<T>, count: nat)
    requires Valid(q, count) && q.position == q.last
    ensures Valid(Rewound(q), count) && Contents(Rewound(q), count) == [] == Contents(q, count)
  {
    RewindValid(q, count);
    hide Valid;
    ItemsLength(q, count);
    ItemsLength(Rewound(q), count);
    hide Contents;
  }

  lemma RewindValid<T>(q: Queue<T>, count: nat)
    requires Valid(q, count) && q.position == q.last
    ensures Valid(Rewound(q), count)
  {
    if |q.pages| > 1 {
      ProductAtLeast(|q.pages| - 1, count);
    }
  }

  lemma ProductAtLeast(n: nat, count: nat)
    requires n >= 1
    ensures n * count >= count
  {
  }

  // ---------- A staged slot that is not saved ----------

  /** Dropping a staged slot keeps the representation exactly when it had not grown a page behind other pages. */
  lemma DiscardKeepsValid<T>(q: Queue<T>, count: nat, blank: seq<T>)
    requires Valid(q, count) && |blank| == count
    ensures Valid(Discarded(Staged(q, count, blank)), count) <==> !NeedsPage(q, count) || q.pages == []
  {
    NeedsPageIffUsedUp(q, count);
    assert (|q.pages| + 1) * count == |q.pages| * count + count;
  }

  // ---------- Looking without removing ----------

  /** The page and offset that aqueue_get reads: always the first page. */
  function PeekSlot<T>(q: Queue<T>, count: nat): (nat, nat)
    requires count > 0
  {
    (0, q.position % count)
  }

  /** The page and offset that the following aqueue_next will read. */
  function ReadSlot<T>(q: Queue<T>, count: nat): (nat, nat)
    requires count > 0
  {
    (q.position / count, q.position % count)
  }

  /** The two agree exactly when the first page has not been read to its end. */
  lemma PeekMatchesRead<T>(q: Queue<T>, count: nat)
    requires Valid(q, count) && q.position < q.last
    ensures PeekSlot(q, count) == ReadSlot(q, count) <==> q.position < count
  {
    ReadPage(q, count);
  }

  // ---------- Whole runs ----------

  /** One call: new, fill and save, or next. */
  datatype Op<T> = Push(x: T) | Take

  /** new, fill and save on any representation; without a usable last page nothing happens. */
  function RawPush<T>(q: Queue<T>, count: nat, blank: seq<T>, x: T): Queue<T>
    requires count > 0
  {
    var s := Staged(q, count, blank);
    if s.pages != [] && |s.pages[|s.pages| - 1]| == count then Saved(Filled(s, count, x)) else q
  }

  /** next on any representation; where the page or slot is missing nothing is read. */
  function RawTake<T>(q: Queue<T>, count: nat): (Option<T>, Queue<T>)
    requires count > 0
  {
    var d := q.position / count;
    if q.position == q.last then (None, Rewound(q))
    else if d < |q.pages| && d * count <= q.position < q.last && q.position % count < |q.pages[d]|
    then (Some(q.pages[d][q.position % count]), Stepped(q, count))
    else (None, q)
  }

  /** What the takes of a run return. */
  function Outputs<T>(q: Queue<T>, count: nat, blank: seq<T>, ops: seq<Op<T>>): seq<Option<T>>
    requires count > 0
    decreases |ops|
  {
    if ops == [] then []
    else match ops[0]
      case Push(x) => Outputs(RawPush(q, count, blank, x), count, blank, ops[1..])
      case Take => var (r, q') := RawTake(q, count); [r] + Outputs(q', count, blank, ops[1..])
  }

  /** What they return from a FIFO sequence. */
  function FifoOutputs<T>(items: seq<T>, ops: seq<Op<T>>): seq<Option<T>>
    decreases |ops|
  {
    if ops == [] then []
    else match ops[0]
      case Push(x) => FifoOutputs(items + [x], ops[1..])
      case Take =>
        if items == [] then [None] + FifoOutputs(items, ops[1..])
        else [Some(items[0])] + FifoOutputs(items[1..], ops[1..])
  }

  lemma RawIsExact<T>(q: Queue<T>, count: nat, blank: seq<T>, x: T)
    requires Valid(q, count) && |blank| == count
    ensures RawPush(q, count, blank, x) == Pushed(q, count, blank, x)
    ensures RawTake(q, count) == Taken(q, count)
  {
    PushAppends(q, count, blank, x);
    hide Staged, Filled, Saved, Contents, Flat;
    if q.position != q.last {
      ReadPage(q, count);
    }
  }

  /** Every run of pushes and takes returns what a FIFO sequence returns. */
  lemma {:induction false} RunRefinesFifo<T>(q: Queue<T>, count: nat, blank: seq<T>, ops: seq<Op<T>>)
    requires Valid(q, count) && |blank| == count
    ensures Outputs(q, count, blank, ops) == FifoOutputs(Contents(q, count), ops)
    decreases |ops|
  {
    if ops != [] {
      hide Valid, Contents, RawPush, RawTake, Pushed, Taken;
      match ops[0]
      case Push(x) =>
        RawIsExact(q, count, blank, x);
        QueueRefinesFifo(q, count, blank, x);
        RunRefinesFifo(Pushed(q, count, blank, x), count, blank, ops[1..]);
      case Take =>
        TakeRefines(q, count, blank);
        RunRefinesFifo(Taken(q, count).1, count, blank, ops[1..]);
    }
  }

  lemma TakeRefines<T>(q: Queue<T>, count: nat, blank: seq<T>)
    requires Valid(q, count) && |blank| == count
    ensures RawTake(q, count) == Taken(q, count) && Valid(Taken(q, count).1, count)
    ensures var (r, q') := Taken(q, count);
            if Contents(q, count) == [] then r.None? && Contents(q', count) == []
            else r == Some(Contents(q, count)[0]) && Contents(q', count) == Contents(q, count)[1..]
  {
    hide Contents, Flat, Pushed;
    RawIsExact(q, count, blank, blank[0]);
    QueueRefinesFifo(q, count, blank, blank[0]);
  }

  // ---------- Dropping a staged slot, as the takes see it ----------

  /** The queue after a new whose slot was dropped, when that new had to add a page. */
  function Grown<T>(q: Queue<T>, blank: seq<T>): Queue<T> { q.(pages := q.pages + [blank]) }

  /** While objects are left, the extra page is not noticed. */
  lemma GrownTake<T>(q: Queue<T>, count: nat, blank: seq<T>)
    requires Valid(q, count) && |blank| == count && q.last == |q.pages| * count && q.position < q.last
    ensures RawTake(Grown(q, blank), count) == (Taken(q, count).0, Grown(Taken(q, count).1, blank))
    ensures Taken(q, count).1.last == |Taken(q, count).1.pages| * count
  {
    ReadPage(q, count);
    var d, n := q.position / count, |q.pages|;
    assert (q.pages + [blank])[d..] == q.pages[d..] + [blank];
    assert (n - d) * count == n * count - d * count;
  }

  /** A run on the queue with the extra page that reads an object other than the one pushed. */
  lemma {:induction false} GrownBetrays<T>(q: Queue<T>, count: nat, blank: seq<T>, a: T, b: T) returns (ops: seq<Op<T>>)
    requires Valid(q, count) && |blank| == count && q.pages != [] && q.last == |q.pages| * count && a != b
    ensures Outputs(Grown(q, blank), count, blank, ops) != FifoOutputs(Contents(q, count), ops)
    decreases |Contents(q, count)|
  {
    ItemsLength(q, count);
    if q.position == q.last {
      ops := EmptyBetrays(q, count, blank, a, b);
    } else {
      GrownTake(q, count, blank);
      TakeRefines(q, count, blank);
      hide Valid, RawTake, Taken, Grown;
      var rest := GrownBetrays(Taken(q, count).1, count, blank, a, b);
      ops := [Take] + rest;
      assert ops[1..] == rest;
      hide Contents;
      var u, v := Outputs(Grown(q, blank), count, blank, ops), FifoOutputs(Contents(q, count), ops);
      assert u[1..] == Outputs(Grown(Taken(q, count).1, blank), count, blank, rest);
      assert v[1..] == FifoOutputs(Contents(q, count)[1..], rest);
    }
  }

  /** All objects read, one failing take, then a push: the next take reads the old page. */
  lemma EmptyBetrays<T>(q: Queue<T>, count: nat, blank: seq<T>, a: T, b: T) returns (ops: seq<Op<T>>)
    requires Valid(q, count) && |blank| == count && q.pages != [] && q.position == q.last == |q.pages| * count && a != b
    ensures Outputs(Grown(q, blank), count, blank, ops) != FifoOutputs(Contents(q, count), ops)
  {
    assert |q.pages| == 1 by {
      assert |q.pages| > 1 ==> |q.pages| * count >= 2 * count;
    }
    var page := q.pages[0];
    var x := if page[0] == a then b else a;
    ops := [Take, Push(x), Take];
    assert Contents(q, count) == [];
    StaleRead(q, count, blank, page, x);
    hide RawTake, RawPush, Contents, Valid, Grown, Rewound;
    TakePushTake(Grown(q, blank), count, blank, x);
  }

  lemma StaleRead<T>(q: Queue<T>, count: nat, blank: seq<T>, page: seq<T>, x: T)
    requires |page| == |blank| == count > 0 && q.pages == [page] && q.position == q.last
    ensures RawTake(RawPush(RawTake(Grown(q, blank), count).1, count, blank, x), count).0 == Some(page[0])
  {
    var q1 := RawTake(Grown(q, blank), count).1;
    assert q1 == Rewound(Grown(q, blank)) && q1.pages == [page, blank];
    DivUnique(0, 0, 0, count);
    var q2 := RawPush(q1, count, blank, x);
    assert q2.pages == [page, blank[0 := x]] && q2.position == 0 && q2.last == 1;
  }

  lemma TakePushTake<T>(q: Queue<T>, count: nat, blank: seq<T>, x: T)
    requires count > 0
    ensures var ops := [Take, Push(x), Take];
            && |Outputs(q, count, blank, ops)| == |FifoOutputs<T>([], ops)| == 2
            && Outputs(q, count, blank, ops)[1] == RawTake(RawPush(RawTake(q, count).1, count, blank, x), count).0
            && FifoOutputs([], ops)[1] == Some(x)
  {
    hide RawTake, RawPush;
    var ops: seq<Op<T>>, tail: seq<Op<T>>, end: seq<Op<T>> := [Take, Push(x), Take], [Push(x), Take], [Take];
    assert ops[1..] == tail && tail[1..] == end && end[1..] == [];
    var q1 := RawTake(q, count).1;
    var q2 := RawPush(q1, count, blank, x);
    assert Outputs(q2, count, blank, end) == [RawTake(q2, count).0];
    assert Outputs(q1, count, blank, tail) == Outputs(q2, count, blank, end);
    assert FifoOutputs([x], end) == [Some(x)] + FifoOutputs([x][1..], []);
    assert [] + [x] == [x];
    assert FifoOutputs([], tail) == FifoOutputs([x], end);
  }

  /** Dropping a staged slot goes unnoticed by every later run if and only if it did not add a page behind others. */
  lemma DiscardUnnoticedIff<T>(q: Queue<T>, count: nat, blank: seq<T>, a: T, b: T)
    requires Valid(q, count) && |blank| == count && a != b
    ensures (forall ops :: Outputs(Discarded(Staged(q, count, blank)), count, blank, ops) == FifoOutputs(Contents(q, count), ops))
            <==> !NeedsPage(q, count) || q.pages == []
  {
    var d := Discarded(Staged(q, count, blank));
    NeedsPageIffUsedUp(q, count);
    if NeedsPage(q, count) && q.pages != [] {
      assert d == Grown(q, blank);
      var ops := GrownBetrays(q, count, blank, a, b);
      assert Outputs(d, count, blank, ops) != FifoOutputs(Contents(q, count), ops);
    } else {
      DiscardKeepsContents(q, count, blank);
      forall ops ensures Outputs(d, count, blank, ops) == FifoOutputs(Contents(q, count), ops) {
        RunRefinesFifo(d, count, blank, ops);
      }
    }
  }

  lemma DiscardKeepsContents<T>(q: Queue<T>, count: nat, blank: seq<T>)
    requires Valid(q, count) && |blank| == count && (!NeedsPage(q, count) || q.pages == [])
    ensures var d := Discarded(Staged(q, count, blank)); Valid(d, count) && Contents(d, count) == Contents(q, count)
  {
    DiscardKeepsValid(q, count, blank);
    if NeedsPage(q, count) {
      assert q.last == 0;
    } else {
      assert Discarded(Staged(q, count, blank)) == q;
    }
  }

  // ---------- A look at a page that was read to its end ----------

  function After<T>(q: Queue<T>, count: nat, blank: seq<T>, ops: seq<Op<T>>): Queue<T>
    requires count > 0
  {
    if ops == [] then q
    else
      var n := |ops| - 1;
      var p := After(q, count, blank, ops[..n]);
      match ops[n]
      case Push(x) => RawPush(p, count, blank, x)
      case Take => RawTake(p, count).1
  }

  function Pushes<T>(items: seq<T>): seq<Op<T>> { seq(|items|, i requires 0 <= i < |items| => Push(items[i])) }

  function Takes<T>(n: nat): seq<Op<T>> { seq(n, _ => Take) }

  /** Filling one page. */
  lemma {:induction false} FillPage<T>(count: nat, blank: seq<T>, items: seq<T>)
    requires |blank| == count > 0 && 0 < |items| <= count
    ensures After(Empty(), count, blank, Pushes(items)) == Queue([items + blank[|items|..]], 0, |items|, false)
  {
    var n := |items| - 1;
    var front := items[..n];
    assert Pushes(items)[..n] == Pushes(front);
    DivUnique(n, 0, n, count);
    if n == 0 {
      assert Pushes(front) == [];
      assert blank[0 := items[0]] == items + blank[1..];
    } else {
      FillPage(count, blank, front);
      assert (front + blank[n..])[n := items[n]] == items + blank[n + 1..];
    }
  }

  /** Reading it to its end. */
  lemma {:induction false} DrainPage<T>(count: nat, blank: seq<T>, page: seq<T>, ops: seq<Op<T>>, n: nat)
    requires |page| == count > 0 && n <= count && After(Empty(), count, blank, ops) == Queue([page], 0, count, false)
    ensures After(Empty(), count, blank, ops + Takes(n)) == Queue([page], n, count, false)
  {
    var all := ops + Takes(n);
    if n == 0 {
      assert all == ops;
    } else {
      DrainPage(count, blank, page, ops, n - 1);
      assert all[..|all| - 1] == ops + Takes(n - 1) && all[|all| - 1] == Take;
      DrainOne(count, page, n);
      hide RawTake, Takes;
    }
  }

  lemma DrainOne<T>(count: nat, page: seq<T>, n: nat)
    requires |page| == count && 0 < n <= count
    ensures RawTake(Queue([page], n - 1, count, false), count).1 == Queue([page], n, count, false)
  {
    DivUnique(n - 1, 0, n - 1, count);
    assert [page][0..] == [page];
  }

  /**
    For every page size: fill a page, receive all of it, push `x`, and a look shows the first object of
    the old page, although that one was received long ago and `x` is the only object in the queue.
   */
  lemma PeekShowsStale<T>(count: nat, blank: seq<T>, page: seq<T>, x: T)
    requires |page| == |blank| == count > 0
    ensures var q := After(Empty(), count, blank, Pushes(page) + Takes(count) + [Push(x)]);
            && Valid(q, count) && Contents(q, count) == [x]
            && q.pages != [] && q.pages[0] == page && PeekSlot(q, count) == (0, 0)
  {
    FillPage(count, blank, page);
    assert page + blank[count..] == page;
    DrainPage(count, blank, page, Pushes(page), count);
    var ops := Pushes(page) + Takes(count);
    var all := ops + [Push(x)];
    assert all[..|all| - 1] == ops && all[|all| - 1] == Push(x);
    var p := Queue([page], count, count, false);
    assert Valid(p, count) && Contents(p, count) == [];
    RawIsExact(p, count, blank, x);
    QueueRefinesFifo(p, count, blank, x);
    PushBehindRead(count, blank, page, x);
  }

  lemma PushBehindRead<T>(count: nat, blank: seq<T>, page: seq<T>, x: T)
    requires |page| == |blank| == count > 0
    ensures var q := RawPush(Queue([page], count, count, false), count, blank, x);
            q.pages == [page, blank[0 := x]] && q.position == count
    ensures count % count == 0
  {
    DivUnique(count, 1, 0, count);
  }

  // ---------- The queue object ----------

  class AtomicQueue<T> {
    const count: nat
    const blank: T
    var pages: seq<seq<T>>
    var position: nat
    var last: nat
    var staging: bool

    ghost function Model(): Queue<T>
      reads this
    {
      Queue(pages, position, last, staging)
    }

    ghost predicate Ok()
      reads this
    {
      Valid(Model(), count)
    }

    ghost function Items(): seq<T>
      reads this
      requires Ok()
    {
      Contents(Model(), count)
    }

    constructor (count: nat, blank: T)
      requires count > 0
      ensures Ok() && Items() == [] && this.count == count
    {
      this.count, this.blank := count, blank;
      pages, position, last, staging := [], 0, 0, false;
    }

    /** aqueue_new. `mem` tells whether the page allocation succeeds if one is needed. */
    method New(mem: bool) returns (ok: bool)
      requires count > 0
      modifies this`pages, this`staging
      ensures ok <==> mem || !NeedsPage(old(Model()), count)
      ensures Model() == if ok then Staged(old(Model()), count, seq(count, _ => blank)) else old(Model())
    {
      var pageDiv := last / count;
      var pageMod := last % count;
      if pageMod == 0 && |pages| <= pageDiv {
        if !mem {
          return false;
        }
        pages := pages + [seq(count, _ => blank)];
      }
      staging := true;
      return true;
    }

    /** aqueue_save. */
    method Save()
      modifies this`last, this`staging
      ensures Model() == Saved(old(Model()))
    {
      if !staging {
        return;
      }
      last := last + 1;
      staging := false;
    }

    /** The locked section of send_message: new, fill in the object, save. */
    method Push(x: T, mem: bool) returns (ok: bool)
      requires Ok()
      modifies this`pages, this`last, this`staging
      ensures Ok() && (ok <==> mem || !NeedsPage(old(Model()), count))
      ensures Items() == if ok then old(Items()) + [x] else old(Items())
    {
      hide Flat, Contents;
      PushAppends(Model(), count, seq(count, _ => blank), x);
      ok := New(mem);
      if ok {
        var n := |pages| - 1;
        pages := pages[n := pages[n][last % count := x]];
        Save();
      }
    }

    /** aqueue_size. */
    method Size() returns (n: nat)
      requires Ok()
      ensures n == |Items()|
    {
      FlatLength(pages, count);
      n := last - position;
    }

    /** aqueue_get: looks at the slot that PeekSlot names, without removing it. */
    method Get() returns (r: Option<T>)
      requires Ok()
      ensures r.None? <==> Items() == []
      ensures Items() != [] && position < count ==> r == Some(Items()[0])
      ensures Items() != [] && position == count ==> r == Some(pages[0][0])
    {
      FlatLength(pages, count);
      if position == last {
        return None;
      }
      NextRemoves(Model(), count);
      ReadPage(Model(), count);
      return Some(pages[0][position % count]);
    }

    /** aqueue_next: the oldest object, removed; frees the pages it has left behind. */
    method Next() returns (r: Option<T>)
      requires Ok()
      modifies this
      ensures Ok()
      ensures r.None? <==> old(Items()) == []
      ensures r.None? ==> Items() == []
      ensures r.Some? ==> r.value == old(Items())[0] && Items() == old(Items())[1..]
    {
      hide Flat, Contents, Valid, Stepped;
      ItemsLength(Model(), count);
      if position == last {
        RewindKeeps(Model(), count);
        position, last := 0, 0;
        return None;
      }
      ghost var q := Model();
      NextRemoves(q, count);
      ReadPage(q, count);
      var pageDiv := position / count;
      var pageMod := position % count;
      ghost var d := pageDiv;
      SteppedBy(q, count, d);
      while pageDiv > 0
        invariant 0 <= pageDiv <= d <= 1 && d < |q.pages| && staging == q.staging && (d == 1 ==> q.position == count)
        invariant pages == q.pages[d - pageDiv..]
        invariant position == (if pageDiv == d then q.position else q.position - count)
        invariant last == (if pageDiv == d then q.last else q.last - count)
      {
        pages := pages[1..];
        last := last - count;
        position := position - count;
        pageDiv := pageDiv - 1;
      }
      assert pages[0] == q.pages[d];
      r := Some(pages[0][pageMod]);
      position := position + 1;
    }
  }

  lemma SteppedBy<T>(q: Queue<T>, count: nat, d: nat)
    requires count > 0 && d == q.position / count && d <= 1 && d < |q.pages| && d * count <= q.position < q.last
    ensures Stepped(q, count) ==
      (if d == 0 then q.(position := q.position + 1)
       else q.(pages := q.pages[1..], position := q.position - count + 1, last := q.last - count))
  {
    assert q.pages[0..] == q.pages;
  }

  lemma ItemsLength<T>(q: Queue<T>, count: nat)
    requires Valid(q, count)
    ensures count > 0 && |Contents(q, count)| == q.last - q.position
  {
    FlatLength(q.pages, count);
  }
}
