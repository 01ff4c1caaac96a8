/**
  When the reader-writer lock of kernel/src/rwlock.c counts exactly, and when it lets waiting
  threads in. Both questions are asked of the code as written, whose `num_readers += 1` is a load
  and a store, and of the lock whose increment is one step.
 */
module RwLockProgress {
  import opened RwLock

  // ---------- The reader count, exactly ----------

  /** How many releases a store overlooks: those between its load and itself. */
  function Late(s: State, t: Tid): int {
    if t in s.pc && s.pc[t].RStore? then s.pc[t].seen - s.readers else 0
  }

  /** By how much the counter exceeds the number of readers. */
  ghost function Drift(s: State): int { s.readers - |Readers(s)| }

  lemma MoveDrift(l: Local, write: bool, n: nat)
    requires TornPlaced(l, n)
    ensures var l' := Move(l, write, false);
            l'.readers - (Bit(HoldsRead(l'.pc)) - Bit(HoldsRead(l.pc))) ==
              l.readers + (if l.pc.RStore? then l.pc.seen - l.readers else 0)
  {
    hide HoldsSpin, HoldsWrite;
    match l.pc
    case RStore(_) => case RUnlock => case Reading => case RelTest(_) => case RelDec(_) =>
    case _ =>
  }

  /** Every step adds to the drift exactly the releases that it overlooks. */
  lemma StepDrift(s: State, t: Tid, write: bool)
    requires TornInv(s)
    ensures Drift(Next(s, t, write, false)) == Drift(s) + Late(s, t) && Late(s, t) >= 0
  {
    if t in s.pc {
      IsTornPlaced(s, t);
      assert TornKnows(View(s, t));
      hide Move, Holders, HoldsRead, TornPlaced, TornInv;
      MoveDrift(View(s, t), write, |Readers(s)|);
      MoveCount(s.pc, t, Move(View(s, t), write, false).pc, HoldsRead);
    }
  }

  /** No store of the schedule overlooks a release. */
  ghost predicate AllFresh(s: State, schedule: seq<Turn>) {
    forall i :: 0 <= i < |schedule| ==> Late(Exec(s, schedule[..i], false), schedule[i].t) == 0
  }

  lemma FreshFront(s: State, schedule: seq<Turn>)
    requires schedule != []
    ensures var n := |schedule| - 1;
            AllFresh(s, schedule) <==> AllFresh(s, schedule[..n]) && Late(Exec(s, schedule[..n], false), schedule[n].t) == 0
  {
    hide Exec, Late;
    var n := |schedule| - 1;
    var front := schedule[..n];
    assert forall i :: 0 <= i < n ==> front[..i] == schedule[..i] && front[i] == schedule[i];
    if AllFresh(s, front) && Late(Exec(s, front, false), schedule[n].t) == 0 {
      forall i | 0 <= i < |schedule| ensures Late(Exec(s, schedule[..i], false), schedule[i].t) == 0 {
        assert i < n ==> Late(Exec(s, front[..i], false), front[i].t) == 0;
      }
    }
    if AllFresh(s, schedule) {
      forall i | 0 <= i < n ensures Late(Exec(s, front[..i], false), front[i].t) == 0 {
        assert Late(Exec(s, schedule[..i], false), schedule[i].t) == 0;
      }
    }
  }

  /**
    The counters of the code as written are exact after a run if and only if no store of the run
    overlooked a release.
   */
  lemma {:induction false} CountsExactIff(s: State, schedule: seq<Turn>)
    requires Init(s)
    ensures var e := Exec(s, schedule, false); TornInv(e) && (e.readers == |Readers(e)| <==> AllFresh(s, schedule))
  {
    TornRunSafe(s, schedule);
    if schedule == [] {
      assert Readers(s) == {};
    } else {
      var n := |schedule| - 1;
      CountsExactIff(s, schedule[..n]);
      FreshFront(s, schedule);
      StepDrift(Exec(s, schedule[..n], false), schedule[n].t, schedule[n].write);
    }
  }

  // ---------- When the lock is lost to writers ----------

  /** Some thread has loaded a count that a release has since made stale. */
  ghost predicate StalePending(s: State) { exists t :: t in s.pc && Late(s, t) > 0 }

  /** A release has been overlooked or is bound to be, and no writer is inside. */
  ghost predicate Lost(s: State) { TornInv(s) && s.writers == 0 && (Drift(s) > 0 || StalePending(s)) }

  /** What a move does to the counters when another thread holds the spinlock. */
  lemma MoveOutside(l: Local, write: bool)
    requires !HoldsSpin(l.pc) && (HoldsWrite(l.pc) ==> l.writers == 1)
    ensures var l' := Move(l, write, false); l'.readers <= l.readers && (l.writers == 0 ==> l'.writers == 0)
  {
  }

  lemma MoveOfStore(l: Local, write: bool)
    requires l.pc.RStore?
    ensures Move(l, write, false).writers == l.writers
  {
  }

  /** A drift means that nobody is inside for writing or about to be. */
  lemma DriftWedges(s: State)
    requires TornInv(s) && s.writers == 0 && Drift(s) > 0
    ensures Wedged(s)
  {
    hide HoldsSpin, HoldsRead, SpinOk;
    forall t | t in s.pc ensures Harmless(View(s, t)) {
      assert TornKnows(View(s, t));
      IsTornPlaced(s, t);
    }
  }

  lemma LostStep(s: State, t: Tid, write: bool)
    requires Lost(s)
    ensures Lost(Next(s, t, write, false))
  {
    var s' := Next(s, t, write, false);
    TornStep(s, t, write);
    StepDrift(s, t, write);
    if Drift(s) > 0 {
      DriftWedges(s);
      WedgedStep(s, t, write);
    } else if t in s.pc {
      var u :| u in s.pc && Late(s, u) > 0;
      StaleStep(s, t, write, u);
    }
  }

  lemma StaleStep(s: State, t: Tid, write: bool, u: Tid)
    requires TornInv(s) && s.writers == 0 && t in s.pc && u in s.pc && Late(s, u) > 0
    ensures var s' := Next(s, t, write, false);
            s'.writers == 0 && (if t == u then Late(s, t) > 0 else u in s'.pc && Late(s', u) > 0)
  {
    StoreHoldsSpin(s.pc[u]);
    SpinAlone(s, u);
    IsTornPlaced(s, t);
    PlacedWriter(View(s, t), |Readers(s)|);
    hide HoldsSpin, HoldsWrite, HoldsRead, Move, TornInv;
    if t == u {
      MoveOfStore(View(s, t), write);
    } else {
      MoveOutside(View(s, t), write);
    }
  }

  lemma PlacedWriter(l: Local, n: nat)
    requires TornPlaced(l, n)
    ensures HoldsWrite(l.pc) ==> l.writers == 1
  {
  }

  /** From there, whatever the threads do, no writer ever enters. */
  lemma {:induction false} LostForever(s: State, schedule: seq<Turn>)
    requires Lost(s)
    ensures Lost(Exec(s, schedule, false)) && Writers(Exec(s, schedule, false)) == {}
  {
    if schedule != [] {
      var n := |schedule| - 1;
      LostForever(s, schedule[..n]);
      hide Lost;
      LostStep(Exec(s, schedule[..n], false), schedule[n].t, schedule[n].write);
    }
    LostHasNoWriter(Exec(s, schedule, false));
  }

  lemma LostHasNoWriter(s: State)
    requires Lost(s)
    ensures Writers(s) == {}
  {
  }

  /** The lock is wedged after a run if and only if some store of the run overlooked a release. */
  lemma {:induction false} WedgedIff(s: State, schedule: seq<Turn>)
    requires Init(s)
    ensures Wedged(Exec(s, schedule, false)) <==> !AllFresh(s, schedule)
  {
    var e := Exec(s, schedule, false);
    CountsExactIff(s, schedule);
    if !AllFresh(s, schedule) {
      var n := |schedule| - 1;
      var m, t := Exec(s, schedule[..n], false), schedule[n].t;
      WedgedIff(s, schedule[..n]);
      FreshFront(s, schedule);
      hide Wedged, AllFresh;
      if AllFresh(s, schedule[..n]) {
        CountsExactIff(s, schedule[..n]);
        assert TornKnows(View(m, t));
        StepDrift(m, t, schedule[n].write);
        StaleStep(m, t, schedule[n].write, t);
        DriftWedges(e);
      } else {
        WedgedStep(m, t, schedule[n].write);
      }
    }
  }

  // ---------- Letting the others finish ----------

  /** Counters exact, and no load that has gone stale: what a run needs to let everybody in. */
  ghost predicate Good(s: State) {
    TornInv(s) && s.readers == |Readers(s)| && forall t :: t in s.pc ==> Late(s, t) == 0
  }

  /** The same for both kinds of increment; with an atomic one the invariant of every run is enough. */
  ghost predicate Fit(s: State, atomic: bool) { if atomic then Inv(s) else Good(s) }

  lemma FitIsGood(s: State, atomic: bool)
    requires Fit(s, atomic)
    ensures Good(s)
  {
    if atomic {
      hide SpinOk;
      forall t | t in s.pc ensures TornKnows(View(s, t)) && Late(s, t) == 0 {
        assert Knows(View(s, t));
      }
    }
  }

  /** No other thread is in the middle of an increment. */
  ghost predicate OthersWhole(s: State, t: Tid) { forall u :: u in s.pc && u != t ==> !s.pc[u].RStore? }

  lemma MoveToStore(l: Local, write: bool)
    ensures var l' := Move(l, write, false); l'.pc.RStore? ==> l'.pc.seen == l'.readers
  {
  }

  lemma FitStep(s: State, t: Tid, write: bool, atomic: bool)
    requires Fit(s, atomic) && t in s.pc && (atomic || OthersWhole(s, t))
    ensures Fit(Next(s, t, write, atomic), atomic)
  {
    hide Inv, TornInv;
    if atomic {
      StepInv(s, t, write);
    } else {
      TornStep(s, t, write);
      StepDrift(s, t, write);
      MoveToStore(View(s, t), write);
      hide Move, Readers;
    }
  }

  /** How many steps a thread that is inside, or holds the spinlock, is away from rest. */
  function Rank(p: Pc): nat {
    match p
    case Idle => 0 case WSpin => 0 case RSpin => 0
    case WRetry => 1 case RRetry => 1 case WRequest => 2
    case RelWriters(_) => 1 case RelDec(_) => 1 case RelRequest(_) => 2 case RelTest(_) => 3
    case Writing => 4 case Reading => 4 case WUnlock => 5 case RUnlock => 5
    case RStore(_) => 6 case RInc => 7 case WInc => 6
    case WReadWriters => 7 case WReadReaders => 8 case RReadRequest => 8 case RReadWriters => 9
  }

  lemma MoveRank(l: Local, write: bool, atomic: bool)
    requires Rank(l.pc) > 0
    ensures Rank(Move(l, write, atomic).pc) < Rank(l.pc)
  {
  }

  /** On the way into the lock as a writer, or as a reader. */
  predicate WaitsToWrite(p: Pc) {
    p.WSpin? || p.WReadReaders? || p.WReadWriters? || p.WInc? || p.WUnlock? || p.WRequest? || p.WRetry?
  }

  predicate WaitsToRead(p: Pc) {
    p.RSpin? || p.RReadWriters? || p.RReadRequest? || p.RInc? || p.RStore? || p.RUnlock? || p.RRetry?
  }

  /** Entered, or still on the way. */
  predicate Onward(p: Pc, q: Pc) {
    (WaitsToWrite(p) ==> WaitsToWrite(q) || q == Writing) && (WaitsToRead(p) ==> WaitsToRead(q) || q == Reading)
  }

  lemma MoveOnward(l: Local, write: bool, atomic: bool)
    ensures Onward(l.pc, Move(l, write, atomic).pc)
  {
  }

  lemma OnwardThrough(p: Pc, q: Pc, r: Pc)
    requires Onward(p, q) && Onward(q, r) && HoldsSpin(q)
    ensures Onward(p, r)
  {
  }

  lemma {:induction false} ExecConcat(s: State, a: seq<Turn>, b: seq<Turn>, atomic: bool)
    ensures Exec(s, a + b, atomic) == Exec(Exec(s, a, atomic), b, atomic)
  {
    if b == [] {
      assert a + b == a;
    } else {
      var n := |b| - 1;
      ExecConcat(s, a, b[..n], atomic);
      assert (a + b)[..|a + b| - 1] == a + b[..n];
    }
  }

  lemma ExecOne(s: State, t: Tid, atomic: bool)
    ensures Exec(s, [Turn(t, false)], atomic) == Next(s, t, false, atomic)
  {
    assert [Turn(t, false)][..0] == [];
    assert Exec(s, [Turn(t, false)][..0], atomic) == s;
  }

  // ---------- A request has an owner ----------

  predicate OwnsRequest(p: Pc) { WaitsToWrite(p) || p == Writing || p == RelTest(true) || p == RelRequest(true) }

  /** Whoever set the request is still on its way to clearing it. */
  ghost predicate RequestOwned(s: State) { s.request ==> exists t :: t in s.pc && OwnsRequest(s.pc[t]) }

  lemma MoveOwned(l: Local, write: bool, atomic: bool)
    requires HoldsWrite(l.pc) ==> l.writers == 1
    ensures var l' := Move(l, write, atomic);
            (OwnsRequest(l.pc) ==> OwnsRequest(l'.pc) || !l'.request) && (l'.request && !l.request ==> OwnsRequest(l'.pc))
  {
  }

  lemma OwnedStep(s: State, t: Tid, write: bool, atomic: bool)
    requires TornInv(s) && RequestOwned(s)
    ensures RequestOwned(Next(s, t, write, atomic))
  {
    var s' := Next(s, t, write, atomic);
    if t in s.pc && s'.request {
      IsTornPlaced(s, t);
      PlacedWriter(View(s, t), |Readers(s)|);
      hide Move, OwnsRequest, TornInv;
      MoveOwned(View(s, t), write, atomic);
      if s.request {
        var u :| u in s.pc && OwnsRequest(s.pc[u]);
        assert OwnsRequest(s'.pc[u]);
      } else {
        assert OwnsRequest(s'.pc[t]);
      }
    }
  }

  // ---------- Letting the others finish, step by step ----------

  /** Fit, and a request has an owner. */
  ghost predicate Ready(s: State, atomic: bool) { Fit(s, atomic) && RequestOwned(s) }

  lemma ReadyStep(s: State, t: Tid, atomic: bool)
    requires Ready(s, atomic) && t in s.pc && (atomic || OthersWhole(s, t))
    ensures Ready(Next(s, t, false, atomic), atomic)
  {
    FitIsGood(s, atomic);
    hide Fit, OthersWhole, TornInv, RequestOwned;
    FitStep(s, t, false, atomic);
    OwnedStep(s, t, false, atomic);
  }

  ghost predicate NoSpinner(s: State) { forall t :: t in s.pc ==> !HoldsSpin(s.pc[t]) }

  /** No other thread holds the spinlock, or is between its load and its store. */
  lemma OthersOutside(s: State, u: Tid, atomic: bool)
    requires Ready(s, atomic) && u in s.pc && HoldsSpin(s.pc[u])
    ensures OthersWhole(s, u) && forall t :: t in s.pc && t != u ==> !HoldsSpin(s.pc[t])
  {
    FitIsGood(s, atomic);
    SpinAlone(s, u);
  }

  /** One step of the thread with the spinlock. */
  lemma SpinStep(s: State, u: Tid, atomic: bool)
    requires Ready(s, atomic) && u in s.pc && HoldsSpin(s.pc[u])
    ensures var s' := Next(s, u, false, atomic);
            && Ready(s', atomic) && s'.pc.Keys == s.pc.Keys && Rank(s'.pc[u]) < Rank(s.pc[u])
            && (forall t :: t in s.pc ==> Onward(s.pc[t], s'.pc[t]))
            && (HoldsSpin(s'.pc[u]) || NoSpinner(s'))
            && (forall t :: t in s.pc && t != u ==> s'.pc[t] == s.pc[t])
  {
    hide Move, HoldsSpin, Rank, Onward, Ready, OthersWhole;
    OthersOutside(s, u, atomic);
    ReadyStep(s, u, atomic);
    SpinIsBusy(s.pc[u]);
    MoveRank(View(s, u), false, atomic);
    MoveOnward(View(s, u), false, atomic);
    forall t | t in s.pc ensures Onward(s.pc[t], s.pc[t]) {
      OnwardSelf(s.pc[t]);
    }
  }

  /** The thread with the spinlock runs until it gives it back. */
  lemma {:induction false} SpinRun(s: State, u: Tid, atomic: bool) returns (more: seq<Turn>)
    requires Ready(s, atomic) && u in s.pc && HoldsSpin(s.pc[u])
    ensures var e := Exec(s, more, atomic);
            && Ready(e, atomic) && NoSpinner(e) && e.pc.Keys == s.pc.Keys
            && forall t :: t in s.pc ==> Onward(s.pc[t], e.pc[t])
    decreases Rank(s.pc[u])
  {
    var s' := Next(s, u, false, atomic);
    SpinStep(s, u, atomic);
    ExecOne(s, u, atomic);
    hide Next, HoldsSpin, Rank, Onward, Ready, NoSpinner;
    if HoldsSpin(s'.pc[u]) {
      var rest := SpinRun(s', u, atomic);
      more := [Turn(u, false)] + rest;
      ExecConcat(s, [Turn(u, false)], rest, atomic);
      OnwardThrough(s.pc[u], s'.pc[u], Exec(s', rest, atomic).pc[u]);
    } else {
      more := [Turn(u, false)];
    }
  }

  lemma SpinIsBusy(p: Pc)
    ensures HoldsSpin(p) ==> Rank(p) > 0
  {
  }

  lemma OnwardSelf(p: Pc)
    ensures Onward(p, p)
  {
  }

  lemma FreeSpin(s: State, atomic: bool) returns (more: seq<Turn>)
    requires Ready(s, atomic)
    ensures var e := Exec(s, more, atomic);
            && Ready(e, atomic) && NoSpinner(e) && e.pc.Keys == s.pc.Keys
            && forall t :: t in s.pc ==> Onward(s.pc[t], e.pc[t])
  {
    hide Onward, Ready;
    forall t | t in s.pc ensures Onward(s.pc[t], s.pc[t]) {
      OnwardSelf(s.pc[t]);
    }
    if u :| u in s.pc && HoldsSpin(s.pc[u]) {
      more := SpinRun(s, u, atomic);
    } else {
      more := [];
    }
  }

  lemma MoveInside(l: Local, atomic: bool)
    requires !HoldsSpin(l.pc) && Rank(l.pc) > 0
    ensures var p := Move(l, false, atomic).pc; !HoldsSpin(p) && (Rank(p) == 0 ==> p == Idle)
  {
  }

  /** A thread inside the lock, or leaving it, runs until it is out. */
  lemma {:induction false} RunOut(s: State, u: Tid, atomic: bool) returns (more: seq<Turn>)
    requires Ready(s, atomic) && NoSpinner(s) && u in s.pc && Rank(s.pc[u]) > 0
    ensures var e := Exec(s, more, atomic); Ready(e, atomic) && NoSpinner(e) && e.pc == s.pc[u := Idle]
    decreases Rank(s.pc[u])
  {
    var s' := Next(s, u, false, atomic);
    assert OthersWhole(s, u) by {
      forall t | t in s.pc ensures !s.pc[t].RStore? {
        StoreHoldsSpin(s.pc[t]);
      }
    }
    ReadyStep(s, u, atomic);
    MoveRank(View(s, u), false, atomic);
    MoveInside(View(s, u), atomic);
    ExecOne(s, u, atomic);
    hide Move, HoldsSpin, Rank, Ready, OthersWhole;
    if Rank(s'.pc[u]) == 0 {
      more := [Turn(u, false)];
    } else {
      var rest := RunOut(s', u, atomic);
      more := [Turn(u, false)] + rest;
      ExecConcat(s, [Turn(u, false)], rest, atomic);
      assert s'.pc[u := Idle] == s.pc[u := Idle];
    }
  }

  /** The threads that are inside the lock or leaving it. */
  function Busy(pc: map<Tid, Pc>): set<Tid> { set t | t in pc && Rank(pc[t]) > 0 }

  /** All of them run until they are out; who waits stays where it is. */
  lemma {:induction false} Drain(s: State, atomic: bool) returns (more: seq<Turn>)
    requires Ready(s, atomic) && NoSpinner(s)
    ensures var e := Exec(s, more, atomic);
            && Ready(e, atomic) && NoSpinner(e) && Busy(e.pc) == {} && e.pc.Keys == s.pc.Keys
            && forall t :: t in s.pc && Rank(s.pc[t]) == 0 ==> e.pc[t] == s.pc[t]
    decreases |Busy(s.pc)|
  {
    hide Ready, NoSpinner;
    if Busy(s.pc) == {} {
      more := [];
    } else {
      var u :| u in Busy(s.pc);
      var first := RunOut(s, u, atomic);
      var m := Exec(s, first, atomic);
      assert Busy(m.pc) == Busy(s.pc) - {u};
      var rest := Drain(m, atomic);
      more := first + rest;
      ExecConcat(s, first, rest, atomic);
    }
  }

  /** Nobody is inside or holds the spinlock. */
  predicate Quiet(s: State) { s.readers == 0 && s.writers == 0 && !s.spin }

  lemma DrainedIsQuiet(s: State, atomic: bool)
    requires Ready(s, atomic) && NoSpinner(s) && Busy(s.pc) == {}
    ensures Quiet(s)
  {
    FitIsGood(s, atomic);
    forall t | t in s.pc ensures !HoldsRead(s.pc[t]) && !HoldsWrite(s.pc[t]) {
      assert t !in Busy(s.pc);
    }
    assert Readers(s) == {} && Writers(s) == {} && Spinners(s) == {};
  }

  // ---------- Entering a quiet lock ----------

  lemma SoloNext(l: Local, n: nat, m: Local, atomic: bool)
    requires SoloLocal(l, n, atomic) == m
    ensures SoloLocal(l, n + 1, atomic) == Move(m, false, atomic)
  {
    hide Move;
  }

  lemma WriteLocal(request: bool, atomic: bool)
    ensures SoloLocal(Local(0, 0, request, false, WSpin), 5, atomic) == Local(0, 1, request, false, Writing)
  {
    var l := Local(0, 0, request, false, WSpin);
    assert SoloLocal(l, 0, atomic) == l;
    hide SoloLocal;
    SoloNext(l, 0, l, atomic);
    SoloNext(l, 1, Local(0, 0, request, true, WReadReaders), atomic);
    SoloNext(l, 2, Local(0, 0, request, true, WReadWriters), atomic);
    SoloNext(l, 3, Local(0, 0, request, true, WInc), atomic);
    SoloNext(l, 4, Local(0, 1, request, true, WUnlock), atomic);
  }

  lemma LeaveLocal(request: bool, atomic: bool)
    ensures SoloLocal(Local(0, 1, request, false, Writing), 4, atomic) == Local(0, 0, false, false, Idle)
  {
    var l := Local(0, 1, request, false, Writing);
    assert SoloLocal(l, 0, atomic) == l;
    hide SoloLocal;
    SoloNext(l, 0, l, atomic);
    SoloNext(l, 1, l.(pc := RelTest(true)), atomic);
    SoloNext(l, 2, l.(pc := RelRequest(true)), atomic);
    SoloNext(l, 3, Local(0, 1, false, false, RelWriters(true)), atomic);
  }

  lemma ReadTests(atomic: bool)
    ensures SoloLocal(Local(0, 0, false, false, RSpin), 3, atomic) == Local(0, 0, false, true, RInc)
  {
    var l := Local(0, 0, false, false, RSpin);
    assert SoloLocal(l, 0, atomic) == l;
    hide SoloLocal;
    SoloNext(l, 0, l, atomic);
    SoloNext(l, 1, Local(0, 0, false, true, RReadWriters), atomic);
    SoloNext(l, 2, Local(0, 0, false, true, RReadRequest), atomic);
  }

  lemma ReadLocal(atomic: bool)
    ensures SoloLocal(Local(0, 0, false, false, RSpin), if atomic then 5 else 6, atomic) == Local(1, 0, false, false, Reading)
  {
    var l := Local(0, 0, false, false, RSpin);
    ReadTests(atomic);
    hide SoloLocal;
    SoloNext(l, 3, Local(0, 0, false, true, RInc), atomic);
    if atomic {
      SoloNext(l, 4, Local(1, 0, false, true, RUnlock), atomic);
    } else {
      SoloNext(l, 4, Local(0, 0, false, true, RStore(0)), atomic);
      SoloNext(l, 5, Local(1, 0, false, true, RUnlock), atomic);
    }
  }

  /** A stretch of one thread, from its local view. */
  lemma RunAlone(s: State, t: Tid, n: nat, atomic: bool)
    requires t in s.pc
    ensures var l := SoloLocal(View(s, t), n, atomic);
            Exec(s, Turns(t, n), atomic) == State(l.readers, l.writers, l.request, l.spin, s.pc[t := l.pc])
  {
    hide SoloLocal, Move;
    Alone(s, [], t, n, atomic);
    SoloView(s, t, n, atomic);
    assert [] + Turns(t, n) == Turns(t, n);
  }

  /** A waiting writer goes in and out, which clears the request. */
  lemma PassWriter(s: State, u: Tid, atomic: bool) returns (more: seq<Turn>)
    requires Quiet(s) && u in s.pc && s.pc[u] == WSpin
    ensures var e := Exec(s, more, atomic); Quiet(e) && !e.request && e.pc == s.pc[u := Idle]
  {
    WriteLocal(s.request, atomic);
    LeaveLocal(s.request, atomic);
    hide SoloLocal, Turns;
    RunAlone(s, u, 5, atomic);
    var m := Exec(s, Turns(u, 5), atomic);
    RunAlone(m, u, 4, atomic);
    more := Turns(u, 5) + Turns(u, 4);
    ExecConcat(s, Turns(u, 5), Turns(u, 4), atomic);
    assert m.pc[u := Idle] == s.pc[u := Idle];
  }

  // ---------- Absence of deadlock ----------

  /** From a ready state some schedule lets a waiting writer in. */
  lemma WriterCanEnter(s: State, t: Tid, atomic: bool) returns (more: seq<Turn>)
    requires Ready(s, atomic) && t in s.pc && WaitsToWrite(s.pc[t])
    ensures var e := Exec(s, more, atomic); t in e.pc && e.pc[t] == Writing
  {
    var a := FreeSpin(s, atomic);
    var m := Exec(s, a, atomic);
    if m.pc[t] == Writing {
      more := a;
      return;
    }
    var b := Drain(m, atomic);
    var q := Exec(m, b, atomic);
    DrainedIsQuiet(q, atomic);
    WriteLocal(q.request, atomic);
    hide Ready, SoloLocal, Turns;
    RunAlone(q, t, 5, atomic);
    more := a + b + Turns(t, 5);
    ExecConcat(s, a, b, atomic);
    ExecConcat(s, a + b, Turns(t, 5), atomic);
  }

  /** From a ready state some schedule lets a waiting reader in. */
  lemma ReaderCanEnter(s: State, t: Tid, atomic: bool) returns (more: seq<Turn>)
    requires Ready(s, atomic) && t in s.pc && WaitsToRead(s.pc[t])
    ensures var e := Exec(s, more, atomic); t in e.pc && e.pc[t] == Reading
  {
    var a := FreeSpin(s, atomic);
    var m := Exec(s, a, atomic);
    if m.pc[t] == Reading {
      more := a;
      return;
    }
    var b := Drain(m, atomic);
    var q := Exec(m, b, atomic);
    DrainedIsQuiet(q, atomic);
    var c := Unblock(q, atomic);
    var o := Exec(q, c, atomic);
    ReadLocal(atomic);
    hide Ready, SoloLocal, Turns;
    var n := if atomic then 5 else 6;
    RunAlone(o, t, n, atomic);
    more := a + b + c + Turns(t, n);
    ExecConcat(s, a, b, atomic);
    ExecConcat(s, a + b, c, atomic);
    ExecConcat(s, a + b + c, Turns(t, n), atomic);
  }

  /** The owner of a request, now waiting at the spinlock, clears it. */
  lemma Unblock(s: State, atomic: bool) returns (more: seq<Turn>)
    requires Ready(s, atomic) && NoSpinner(s) && Busy(s.pc) == {} && Quiet(s)
    ensures var e := Exec(s, more, atomic);
            && Quiet(e) && !e.request && e.pc.Keys == s.pc.Keys
            && forall t :: t in s.pc && s.pc[t] == RSpin ==> e.pc[t] == RSpin
  {
    more := [];
    if s.request {
      var u :| u in s.pc && OwnsRequest(s.pc[u]);
      assert u !in Busy(s.pc);
      more := PassWriter(s, u, atomic);
    }
  }

  lemma InitReady(s: State, atomic: bool)
    requires Init(s)
    ensures Ready(s, atomic)
  {
    InitInv(s);
    assert Readers(s) == {} && Writers(s) == {} && Spinners(s) == {};
  }

  lemma {:induction false} RunOwned(s: State, schedule: seq<Turn>, atomic: bool)
    requires Init(s)
    ensures RequestOwned(Exec(s, schedule, atomic)) && TornInv(Exec(s, schedule, atomic))
  {
    if schedule == [] {
      InitReady(s, false);
    } else {
      var n := |schedule| - 1;
      RunOwned(s, schedule[..n], atomic);
      hide RequestOwned, TornInv;
      OwnedStep(Exec(s, schedule[..n], atomic), schedule[n].t, schedule[n].write, atomic);
      if atomic {
        RunSafe(s, schedule);
        FitIsGood(Exec(s, schedule, true), true);
      } else {
        TornRunSafe(s, schedule);
      }
    }
  }

  /**
    With an atomic increment the lock never deadlocks: from every reachable state every waiting thread
    can still enter.
   */
  lemma NoDeadlock(s: State, schedule: seq<Turn>, t: Tid)
    requires Init(s) && t in Exec(s, schedule, true).pc
    ensures var e := Exec(s, schedule, true);
            && (WaitsToWrite(e.pc[t]) ==> exists more :: Entered(e, more, true, t, Writing))
            && (WaitsToRead(e.pc[t]) ==> exists more :: Entered(e, more, true, t, Reading))
  {
    var e := Exec(s, schedule, true);
    RunSafe(s, schedule);
    RunOwned(s, schedule, true);
    hide Inv, RequestOwned;
    if WaitsToWrite(e.pc[t]) {
      var more := WriterCanEnter(e, t, true);
      assert Entered(e, more, true, t, Writing);
    }
    if WaitsToRead(e.pc[t]) {
      var more := ReaderCanEnter(e, t, true);
      assert Entered(e, more, true, t, Reading);
    }
  }

  /** The continuation brings the thread to a program counter. */
  ghost predicate Entered(s: State, more: seq<Turn>, atomic: bool, t: Tid, p: Pc) {
    var e := Exec(s, more, atomic); t in e.pc && e.pc[t] == p
  }

  /**
    For the code as written: after any run, a waiting writer can still enter if and only if no store
    has overlooked a release and no loaded count has gone stale.
   */
  lemma WriterEntersIff(s: State, schedule: seq<Turn>, t: Tid)
    requires Init(s) && t in Exec(s, schedule, false).pc && WaitsToWrite(Exec(s, schedule, false).pc[t])
    ensures var e := Exec(s, schedule, false);
            (exists more :: Entered(e, more, false, t, Writing)) <==> AllFresh(s, schedule) && !StalePending(e)
  {
    var e := Exec(s, schedule, false);
    CountsExactIff(s, schedule);
    RunOwned(s, schedule, false);
    if AllFresh(s, schedule) && !StalePending(e) {
      StaleOrGood(e);
      var more := WriterCanEnter(e, t, false);
      assert Entered(e, more, false, t, Writing);
    } else {
      WedgedIff(s, schedule);
      StaleHasNoWriter(e);
      forall more ensures !Entered(e, more, false, t, Writing) {
        LostForever(e, more);
        NotWriting(Exec(e, more, false), t);
      }
    }
  }

  lemma StaleOrGood(s: State)
    requires TornInv(s) && s.readers == |Readers(s)| && !StalePending(s)
    ensures Good(s)
  {
    hide Readers, SpinOk;
    forall t | t in s.pc ensures Late(s, t) == 0 {
      assert TornKnows(View(s, t));
    }
  }

  lemma StaleHasNoWriter(s: State)
    requires TornInv(s)
    ensures StalePending(s) ==> Lost(s)
    ensures Wedged(s) ==> Lost(s)
  {
    if StalePending(s) {
      var t :| t in s.pc && Late(s, t) > 0;
      assert TornKnows(View(s, t));
    }
  }

  lemma NotWriting(s: State, t: Tid)
    requires Writers(s) == {}
    ensures t in s.pc ==> s.pc[t] != Writing
  {
    assert t !in Writers(s);
  }
}
