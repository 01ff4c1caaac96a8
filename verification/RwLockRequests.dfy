/**
  Write requests over whole runs of kernel/src/rwlock.c: an attempt to write that fails its test leaves
  write_request set until a writer releases, and until then no reader enters.
 */
module RwLockRequests {
  import opened RwLock
  import opened RwLockProgress

  /** The test of rwlock_get_write_access that `t` is about to make finds the lock in use. */
  predicate FailsTest(s: State, t: Tid) {
    && t in s.pc
    && ((s.pc[t].WReadReaders? && s.readers != 0) || (s.pc[t].WReadWriters? && s.writers != 0))
  }

  /** The state before turn `i` of a schedule. */
  function Before(s: State, schedule: seq<Turn>, i: nat, atomic: bool): State
    requires i <= |schedule|
  {
    Exec(s, schedule[..i], atomic)
  }

  lemma BeforeNext(s: State, schedule: seq<Turn>, i: nat, atomic: bool)
    requires i < |schedule|
    ensures Before(s, schedule, i + 1, atomic) == Next(Before(s, schedule, i, atomic), schedule[i].t, schedule[i].write, atomic)
  {
    assert schedule[..i + 1][..i] == schedule[..i];
  }

  lemma BeforeAll(s: State, schedule: seq<Turn>, atomic: bool)
    ensures Before(s, schedule, |schedule|, atomic) == Exec(s, schedule, atomic)
  {
    assert schedule[..|schedule|] == schedule;
  }

  /** In turn `i` the test of `t` fails, and `k` is the next turn of `t`. */
  ghost predicate Attempt(s: State, schedule: seq<Turn>, atomic: bool, t: Tid, i: nat, k: nat) {
    && i < k < |schedule| && schedule[i].t == t && schedule[k].t == t
    && (forall j :: i < j < k ==> schedule[j].t != t)
    && FailsTest(Before(s, schedule, i, atomic), t)
  }

  /** No writer's release clears the request from turn `n` on. */
  ghost predicate NoReleaseFrom(s: State, schedule: seq<Turn>, atomic: bool, n: nat) {
    forall j :: n <= j < |schedule| ==> !ReleaseStep(Before(s, schedule, j, atomic), schedule[j].t)
  }

  /** A thread stays where it is while the others move. */
  lemma {:induction false} StandsStill(s: State, schedule: seq<Turn>, atomic: bool, t: Tid, n: nat, k: nat)
    requires n <= k <= |schedule| && forall j :: n <= j < k ==> schedule[j].t != t
    requires t in Before(s, schedule, n, atomic).pc
    ensures t in Before(s, schedule, k, atomic).pc
    ensures Before(s, schedule, k, atomic).pc[t] == Before(s, schedule, n, atomic).pc[t]
  {
    if n < k {
      StandsStill(s, schedule, atomic, t, n, k - 1);
      BeforeNext(s, schedule, k - 1, atomic);
      hide Before, Move;
    }
  }

  /** The turn after a failed test sets the request. */
  lemma FailureRequests(s: State, schedule: seq<Turn>, atomic: bool, t: Tid, i: nat, k: nat)
    requires Attempt(s, schedule, atomic, t, i, k)
    ensures var m := Before(s, schedule, k + 1, atomic); m.request && t in m.pc && m.pc[t] == WRetry
  {
    BeforeNext(s, schedule, i, atomic);
    var a := Before(s, schedule, i, atomic);
    assert Before(s, schedule, i + 1, atomic).pc[t] == WRequest by {
      hide Before;
      assert Next(a, t, schedule[i].write, atomic).pc[t] == WRequest;
    }
    StandsStill(s, schedule, atomic, t, i + 1, k);
    BeforeNext(s, schedule, k, atomic);
    hide Before;
  }

  /** A request that is set stays set, and the readers can only become fewer, until a writer releases. */
  lemma RequestHolds(s: State, schedule: seq<Turn>, atomic: bool, n: nat)
    requires Init(s) && n <= |schedule| && Before(s, schedule, n, atomic).request && NoReleaseFrom(s, schedule, atomic, n)
    ensures var e := Exec(s, schedule, atomic); e.request && Readers(e) <= Readers(Before(s, schedule, n, atomic))
  {
    hide Init, NoRelease, NoReleaseFrom, Readers, Exec, TornInv, Inv, Exclusive;
    var m, rest := Before(s, schedule, n, atomic), schedule[n..];
    assert schedule == schedule[..n] + rest;
    ExecConcat(s, schedule[..n], rest, atomic);
    TailNoRelease(s, schedule, atomic, n);
    if atomic {
      RunSafe(s, schedule[..n]);
      RequestBlocksReaders(m, rest);
    } else {
      TornRunSafe(s, schedule[..n]);
      TornRequestBlocksReaders(m, rest);
    }
  }

  lemma TailNoRelease(s: State, schedule: seq<Turn>, atomic: bool, n: nat)
    requires n <= |schedule| && NoReleaseFrom(s, schedule, atomic, n)
    ensures NoRelease(Before(s, schedule, n, atomic), schedule[n..], atomic)
  {
    var m, rest := Before(s, schedule, n, atomic), schedule[n..];
    forall j | 0 <= j < |rest| ensures !ReleaseStep(Exec(m, rest[..j], atomic), rest[j].t) {
      ExecConcat(s, schedule[..n], rest[..j], atomic);
      assert schedule[..n] + rest[..j] == schedule[..n + j];
      assert !ReleaseStep(Before(s, schedule, n + j, atomic), schedule[n + j].t);
    }
  }

  /**
    A writer that has failed once: whatever the threads do afterwards, the request stays set and no
    reader enters, until a writer releases.
   */
  lemma FailedWriterHoldsReadersOff(s: State, schedule: seq<Turn>, atomic: bool, t: Tid, i: nat, k: nat)
    requires Init(s) && Attempt(s, schedule, atomic, t, i, k) && NoReleaseFrom(s, schedule, atomic, k + 1)
    ensures var e := Exec(s, schedule, atomic); e.request && Readers(e) <= Readers(Before(s, schedule, k + 1, atomic))
  {
    FailureRequests(s, schedule, atomic, t, i, k);
    hide Init, Before, Attempt, NoReleaseFrom;
    RequestHolds(s, schedule, atomic, k + 1);
  }

  /** A thread on its way back to the spinlock after a failed attempt. */
  ghost predicate Failed(p: Pc) { p.WRequest? || p.WRetry? }

  /**
    In every run, a thread that stands at WRequest or WRetry has failed its test; at WRetry it has made
    the next turn too, so the request is set unless a writer has released since.
   */
  lemma RetryHasFailed(s: State, schedule: seq<Turn>, atomic: bool, t: Tid) returns (i: nat, k: nat)
    requires Init(s) && t in Exec(s, schedule, atomic).pc && Exec(s, schedule, atomic).pc[t] == WRetry
    ensures Attempt(s, schedule, atomic, t, i, k)
    ensures NoReleaseFrom(s, schedule, atomic, k + 1) ==> Exec(s, schedule, atomic).request
  {
    BeforeAll(s, schedule, atomic);
    k := LastTurn(s, schedule, atomic, t, |schedule|);
    i := LastTurn(s, schedule, atomic, t, k);
    if NoReleaseFrom(s, schedule, atomic, k + 1) {
      FailedWriterHoldsReadersOff(s, schedule, atomic, t, i, k);
    }
  }

  /** The last turn of a thread that is no longer idle took it to where it stands. */
  lemma {:induction false} LastTurn(s: State, schedule: seq<Turn>, atomic: bool, t: Tid, n: nat) returns (k: nat)
    requires Init(s) && n <= |schedule|
    requires t in Before(s, schedule, n, atomic).pc && Failed(Before(s, schedule, n, atomic).pc[t])
    ensures k < n && schedule[k].t == t && (forall j :: k < j < n ==> schedule[j].t != t)
    ensures t in Before(s, schedule, k, atomic).pc
    ensures var a := Before(s, schedule, k, atomic);
            if Before(s, schedule, n, atomic).pc[t] == WRetry then a.pc[t] == WRequest else FailsTest(a, t)
  {
    assert n > 0;
    k := n - 1;
    BeforeNext(s, schedule, k, atomic);
    hide Before, Init;
    if schedule[k].t == t {
      FailedFrom(View(Before(s, schedule, k, atomic), t), schedule[k].write, atomic);
    } else {
      k := LastTurn(s, schedule, atomic, t, k);
    }
  }

  lemma FailedFrom(l: Local, write: bool, atomic: bool)
    ensures Move(l, write, atomic).pc == WRetry ==> l.pc == WRequest
    ensures Move(l, write, atomic).pc == WRequest ==>
      (l.pc.WReadReaders? && l.readers != 0) || (l.pc.WReadWriters? && l.writers != 0)
  {
  }

  // ---------- Undisturbed calls ----------

  /** An undisturbed attempt to write enters an unused lock; else it leaves the request and starts over. */
  lemma WriteAttempt(readers: int, writers: int, request: bool, atomic: bool)
    ensures var l := Local(readers, writers, request, false, WSpin);
            if readers != 0 then SoloLocal(l, 4, atomic) == Local(readers, writers, true, false, WSpin)
            else if writers != 0 then SoloLocal(l, 5, atomic) == Local(readers, writers, true, false, WSpin)
            else SoloLocal(l, 5, atomic) == Local(0, 1, request, false, Writing)
  {
    var l := Local(readers, writers, request, false, WSpin);
    assert SoloLocal(l, 0, atomic) == l;
    hide SoloLocal;
    SoloNext(l, 0, l, atomic);
    SoloNext(l, 1, l.(spin := true, pc := WReadReaders), atomic);
    if readers != 0 {
      RefusedWrite(l, 2, atomic);
    } else {
      SoloNext(l, 2, l.(spin := true, pc := WReadWriters), atomic);
      if writers != 0 {
        RefusedWrite(l, 3, atomic);
      } else {
        WriteLocal(request, atomic);
      }
    }
  }

  lemma RefusedWrite(l: Local, n: nat, atomic: bool)
    requires SoloLocal(l, n, atomic) == l.(spin := true, pc := WRequest)
    ensures SoloLocal(l, n + 2, atomic) == l.(request := true, spin := false, pc := WSpin)
  {
    hide SoloLocal;
    SoloNext(l, n, l.(spin := true, pc := WRequest), atomic);
    SoloNext(l, n + 1, l.(spin := true, request := true, pc := WRetry), atomic);
  }

  /** An undisturbed attempt to read enters a lock without a writer or a request; else it changes nothing. */
  lemma ReadAttempt(readers: int, writers: int, request: bool, atomic: bool)
    ensures var l := Local(readers, writers, request, false, RSpin);
            if writers != 0 then SoloLocal(l, 3, atomic) == l
            else if request then SoloLocal(l, 4, atomic) == l
            else SoloLocal(l, if atomic then 5 else 6, atomic) == Local(readers + 1, 0, false, false, Reading)
  {
    var l := Local(readers, writers, request, false, RSpin);
    assert SoloLocal(l, 0, atomic) == l;
    hide SoloLocal;
    SoloNext(l, 0, l, atomic);
    SoloNext(l, 1, l.(spin := true, pc := RReadWriters), atomic);
    if writers != 0 {
      SoloNext(l, 2, l.(spin := true, pc := RRetry), atomic);
    } else {
      SoloNext(l, 2, l.(spin := true, pc := RReadRequest), atomic);
      if request {
        SoloNext(l, 3, l.(spin := true, pc := RRetry), atomic);
      } else {
        EnterRead(l, atomic);
      }
    }
  }

  lemma EnterRead(l: Local, atomic: bool)
    requires SoloLocal(l, 3, atomic) == l.(spin := true, pc := RInc)
    ensures SoloLocal(l, if atomic then 5 else 6, atomic) == l.(readers := l.readers + 1, spin := false, pc := Reading)
  {
    hide SoloLocal;
    SoloNext(l, 3, l.(spin := true, pc := RInc), atomic);
    if atomic {
      SoloNext(l, 4, l.(readers := l.readers + 1, spin := true, pc := RUnlock), atomic);
    } else {
      SoloNext(l, 4, l.(spin := true, pc := RStore(l.readers)), atomic);
      SoloNext(l, 5, l.(readers := l.readers + 1, spin := true, pc := RUnlock), atomic);
    }
  }

  /** An undisturbed release: of the writer, which takes the request with it, or else of one reader. */
  lemma ReleaseCall(l: Local, atomic: bool)
    requires l.pc == Writing || l.pc == Reading
    ensures if l.writers != 0 then SoloLocal(l, 4, atomic) == l.(request := false, writers := 0, pc := Idle)
            else SoloLocal(l, 3, atomic) == l.(readers := l.readers - 1, pc := Idle)
  {
    var w := l.pc == Writing;
    assert SoloLocal(l, 0, atomic) == l;
    ReleaseMoves(l, w, atomic);
    hide SoloLocal, Move;
    SoloNext(l, 0, l, atomic);
    SoloNext(l, 1, l.(pc := RelTest(w)), atomic);
    if l.writers != 0 {
      SoloNext(l, 2, l.(pc := RelRequest(w)), atomic);
      SoloNext(l, 3, l.(request := false, pc := RelWriters(w)), atomic);
    } else {
      SoloNext(l, 2, l.(pc := RelDec(w)), atomic);
    }
  }

  /** The steps of a release. */
  lemma ReleaseMoves(l: Local, w: bool, atomic: bool)
    ensures l.pc == (if w then Writing else Reading) ==> Move(l, false, atomic) == l.(pc := RelTest(w))
    ensures Move(l.(pc := RelTest(w)), false, atomic) == l.(pc := if l.writers != 0 then RelRequest(w) else RelDec(w))
    ensures Move(l.(pc := RelRequest(w)), false, atomic) == l.(request := false, pc := RelWriters(w))
    ensures Move(l.(request := false, pc := RelWriters(w)), false, atomic) == l.(request := false, writers := 0, pc := Idle)
    ensures Move(l.(pc := RelDec(w)), false, atomic) == l.(readers := l.readers - 1, pc := Idle)
  {
  }

  /** Two threads: one reads, the other tries to write, and the request is set. */
  lemma SecondThreadRequests()
    ensures var schedule := Turns(0, 7) + [Turn(1, true)] + Turns(1, 3);
            Exec(Two(0, false, Idle, Idle), schedule, false) == State(1, 0, true, true, map[0 := Reading, 1 := WRetry])
  {
    var s := Two(0, false, Idle, Idle);
    var begin := Turns(0, 7) + [Turn(1, true)];
    WriterStarts();
    AttemptLocal();
    hide Move, SoloLocal, Solo, Turns, Exec;
    Alone(s, begin, 1, 3, false);
    SoloView(Two(1, false, Reading, WSpin), 1, 3, false);
    assert map[0 := Reading, 1 := WSpin][1 := WRetry] == map[0 := Reading, 1 := WRetry];
  }

  lemma WriterStarts()
    ensures Exec(Two(0, false, Idle, Idle), Turns(0, 7) + [Turn(1, true)], false) == Two(1, false, Reading, WSpin)
  {
    TornEntry();
    hide Turns, Solo;
    var s, begin := Two(0, false, Idle, Idle), Turns(0, 7) + [Turn(1, true)];
    assert [] + Turns(0, 7) == Turns(0, 7);
    Alone(s, [], 0, 7, false);
    assert begin[..|begin| - 1] == Turns(0, 7);
    assert map[0 := Reading, 1 := Idle][1 := WSpin] == map[0 := Reading, 1 := WSpin];
  }

  lemma AttemptLocal()
    ensures SoloLocal(Local(1, 0, false, false, WSpin), 3, false) == Local(1, 0, true, true, WRetry)
  {
    assert SoloLocal(Local(1, 0, false, false, WSpin), 1, false) == Local(1, 0, false, true, WReadReaders);
  }
}
