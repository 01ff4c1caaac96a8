/**
  The reader-writer lock of kernel/src/rwlock.c as interleaved steps of any number of threads.
  Each step is one access to the shared words, so the checks, the counter updates and the two
  stores of rwlock_release (which takes no spinlock) may be interleaved with other threads.
 */
module RwLock {

  type Tid = nat

  datatype Pc =
    | Idle
    // rwlock_get_write_access
    | WSpin | WReadReaders | WReadWriters | WInc | WUnlock | WRequest | WRetry
    // rwlock_get_read_access; RStore is the second half of an increment that is not atomic
    | RSpin | RReadWriters | RReadRequest | RInc | RStore(seen: int) | RUnlock | RRetry
    // holding the lock
    | Writing | Reading
    // rwlock_release by a writer or by a reader
    | RelTest(writer: bool) | RelRequest(writer: bool) | RelWriters(writer: bool) | RelDec(writer: bool)

  datatype State = State(readers: int, writers: int, request: bool, spin: bool, pc: map<Tid, Pc>)

  /** The shared words and the program counter of the thread that moves. */
  datatype Local = Local(readers: int, writers: int, request: bool, spin: bool, pc: Pc)

  /** One step of a thread. An idle thread starts a write access when `write`, else a read access. */
  function Move(l: Local, write: bool, atomic: bool): Local {
    match l.pc
    case Idle => l.(pc := if write then WSpin else RSpin)
    case WSpin => if l.spin then l else l.(pc := WReadReaders, spin := true)
    case WReadReaders => l.(pc := if l.readers == 0 then WReadWriters else WRequest)
    case WReadWriters => l.(pc := if l.writers == 0 then WInc else WRequest)
    case WInc => l.(pc := WUnlock, writers := l.writers + 1)
    case WUnlock => l.(pc := Writing, spin := false)
    case WRequest => l.(pc := WRetry, request := true)
    case WRetry => l.(pc := WSpin, spin := false)
    case RSpin => if l.spin then l else l.(pc := RReadWriters, spin := true)
    case RReadWriters => l.(pc := if l.writers == 0 then RReadRequest else RRetry)
    case RReadRequest => l.(pc := if !l.request then RInc else RRetry)
    case RInc => if atomic then l.(pc := RUnlock, readers := l.readers + 1) else l.(pc := RStore(l.readers))
    case RStore(seen) => l.(pc := RUnlock, readers := seen + 1)
    case RUnlock => l.(pc := Reading, spin := false)
    case RRetry => l.(pc := RSpin, spin := false)
    case Writing => l.(pc := RelTest(true))
    case Reading => l.(pc := RelTest(false))
    case RelTest(w) => l.(pc := if l.writers != 0 then RelRequest(w) else RelDec(w))
    case RelRequest(w) => l.(pc := RelWriters(w), request := false)
    case RelWriters(w) => l.(pc := Idle, writers := 0)
    case RelDec(w) => l.(pc := Idle, readers := l.readers - 1)
  }

  function View(s: State, t: Tid): Local
    requires t in s.pc
  {
    Local(s.readers, s.writers, s.request, s.spin, s.pc[t])
  }

  function Next(s: State, t: Tid, write: bool, atomic: bool): State {
    if t !in s.pc then s else
      var l := Move(View(s, t), write, atomic);
      State(l.readers, l.writers, l.request, l.spin, s.pc[t := l.pc])
  }

  datatype Turn = Turn(t: Tid, write: bool)

  /** The state after a schedule: any interleaving is some schedule. */
  function Exec(s: State, schedule: seq<Turn>, atomic: bool): State {
    if schedule == [] then s else
      var last := schedule[|schedule| - 1];
      Next(Exec(s, schedule[..|schedule| - 1], atomic), last.t, last.write, atomic)
  }

  /** init_rwlock, with every thread outside the lock. */
  predicate Init(s: State) {
    s.readers == 0 && s.writers == 0 && !s.request && !s.spin && forall t :: t in s.pc ==> s.pc[t] == Idle
  }

  // ---------- Who holds what ----------

  predicate HoldsRead(p: Pc) { p.RUnlock? || p.Reading? || p == RelTest(false) || p == RelDec(false) }

  predicate HoldsWrite(p: Pc) {
    p.WUnlock? || p.Writing? || p == RelTest(true) || p == RelRequest(true) || p == RelWriters(true)
  }

  predicate HoldsSpin(p: Pc) {
    || p.WReadReaders? || p.WReadWriters? || p.WInc? || p.WUnlock? || p.WRequest? || p.WRetry?
    || p.RReadWriters? || p.RReadRequest? || p.RInc? || p.RStore? || p.RUnlock? || p.RRetry?
  }

  function Holders(pc: map<Tid, Pc>, h: Pc -> bool): set<Tid> { set t | t in pc && h(pc[t]) }

  function Readers(s: State): set<Tid> { Holders(s.pc, HoldsRead) }

  function Writers(s: State): set<Tid> { Holders(s.pc, HoldsWrite) }

  function Spinners(s: State): set<Tid> { Holders(s.pc, HoldsSpin) }

  /** A writer excludes every other holder. */
  ghost predicate Exclusive(s: State) {
    Writers(s) == {} || (|Writers(s)| == 1 && Readers(s) == {})
  }

  /** What a thread knows at its program counter. */
  predicate Knows(l: Local) {
    && (l.pc.WReadWriters? ==> l.readers == 0)
    && (l.pc.WInc? ==> l.readers == 0 && l.writers == 0)
    && (l.pc.RReadRequest? ==> l.writers == 0)
    && (l.pc.RInc? ==> l.writers == 0 && !l.request)
    && !l.pc.RStore? && l.pc != RelRequest(false) && l.pc != RelWriters(false) && l.pc != RelDec(true)
  }

  /** The holder counts are exact and a writer is alone. */
  ghost predicate CountsOk(s: State) {
    s.readers == |Readers(s)| && s.writers == |Writers(s)| && s.writers <= 1 && (s.writers == 1 ==> s.readers == 0)
  }

  ghost predicate SpinOk(s: State) { |Spinners(s)| == Bit(s.spin) }

  ghost predicate AllKnow(s: State) { forall t :: t in s.pc ==> Knows(View(s, t)) }

  ghost predicate Inv(s: State) { CountsOk(s) && SpinOk(s) && AllKnow(s) }

  lemma InitInv(s: State)
    requires Init(s)
    ensures Inv(s)
  {
    assert Readers(s) == {} && Writers(s) == {} && Spinners(s) == {};
  }

  function Bit(b: bool): int { if b then 1 else 0 }

  /** Moving one thread changes a holder count by that thread's own change. */
  lemma MoveCount(pc: map<Tid, Pc>, t: Tid, p: Pc, h: Pc -> bool)
    requires t in pc
    ensures |Holders(pc[t := p], h)| == |Holders(pc, h)| + Bit(h(p)) - Bit(h(pc[t]))
  {
    assert Holders(pc[t := p], h) == if h(p) then Holders(pc, h) + {t} else Holders(pc, h) - {t};
    assert t in Holders(pc, h) <==> h(pc[t]);
  }

  /** A holder is counted. */
  lemma Counted(pc: map<Tid, Pc>, t: Tid, h: Pc -> bool)
    requires t in pc && h(pc[t])
    ensures |Holders(pc, h)| >= 1
    ensures |Holders(pc, h)| <= 1 ==> Holders(pc, h) == {t}
  {
    assert t in Holders(pc, h);
    assert |Holders(pc, h) - {t}| == |Holders(pc, h)| - 1;
    if |Holders(pc, h)| <= 1 {
      assert Holders(pc, h) - {t} == {};
    }
  }

  /** Every step of every thread keeps the invariant. */
  lemma StepInv(s: State, t: Tid, write: bool)
    requires Inv(s)
    ensures Inv(Next(s, t, write, true))
  {
    if t in s.pc {
      hide CountsOk, SpinOk, AllKnow, Next;
      StepCounts(s, t, write);
      StepKnows(s, t, write);
    }
  }

  /** What the counts say about a thread that is about to move. */
  predicate Placed(l: Local) {
    && Knows(l)
    && 0 <= l.writers <= 1 && 0 <= l.readers && (l.writers == 1 ==> l.readers == 0)
    && (HoldsWrite(l.pc) ==> l.writers == 1) && (HoldsRead(l.pc) ==> l.readers >= 1)
    && (HoldsSpin(l.pc) ==> l.spin)
  }

  /** The counters change as the mover's holdings do. */
  lemma MoveReaders(l: Local, write: bool)
    requires Placed(l)
    ensures var l' := Move(l, write, true); l'.readers == l.readers + Bit(HoldsRead(l'.pc)) - Bit(HoldsRead(l.pc))
  {
    hide HoldsSpin, HoldsWrite;
    match l.pc
    case RInc => case RUnlock => case Reading => case RelTest(_) => case RelDec(_) =>
    case _ =>
  }

  lemma MoveWriters(l: Local, write: bool)
    requires Placed(l)
    ensures var l' := Move(l, write, true); l'.writers == l.writers + Bit(HoldsWrite(l'.pc)) - Bit(HoldsWrite(l.pc))
  {
    hide HoldsSpin, HoldsRead;
    match l.pc
    case WInc => case WUnlock => case Writing => case RelTest(_) => case RelRequest(_) => case RelWriters(_) =>
    case _ =>
  }

  /** Only an empty lock admits a writer, and only a lock without writers admits a reader. */
  lemma MoveExclusive(l: Local, write: bool)
    requires Placed(l)
    ensures var l' := Move(l, write, true); l'.writers <= 1 && (l'.writers == 1 ==> l'.readers == 0)
  {
    hide HoldsSpin;
  }

  lemma MoveSpins(l: Local, write: bool)
    requires Placed(l)
    ensures var l' := Move(l, write, true); Bit(l'.spin) == Bit(l.spin) + Bit(HoldsSpin(l'.pc)) - Bit(HoldsSpin(l.pc))
  {
    hide HoldsRead, HoldsWrite, Knows;
  }

  /** The counters follow the holder sets, and only an empty lock admits a writer. */
  lemma StepCounts(s: State, t: Tid, write: bool)
    requires Inv(s) && t in s.pc
    ensures CountsOk(Next(s, t, write, true)) && SpinOk(Next(s, t, write, true))
  {
    hide Holders, Move, HoldsRead, HoldsWrite, HoldsSpin;
    var l := Move(View(s, t), write, true);
    MoveCount(s.pc, t, l.pc, HoldsRead);
    MoveCount(s.pc, t, l.pc, HoldsWrite);
    MoveCount(s.pc, t, l.pc, HoldsSpin);
    IsPlaced(s, t);
    MoveReaders(View(s, t), write);
    MoveWriters(View(s, t), write);
    MoveExclusive(View(s, t), write);
    MoveSpins(View(s, t), write);
  }

  lemma IsPlaced(s: State, t: Tid)
    requires Inv(s) && t in s.pc
    ensures Placed(View(s, t))
    ensures forall u :: u in s.pc && u != t && HoldsSpin(s.pc[t]) ==> !HoldsSpin(s.pc[u])
  {
    hide HoldsRead, HoldsWrite, HoldsSpin;
    if HoldsSpin(s.pc[t]) {
      Counted(s.pc, t, HoldsSpin);
      forall u | u in s.pc && u != t ensures !HoldsSpin(s.pc[u]) {
        assert u !in Holders(s.pc, HoldsSpin);
      }
    }
    if HoldsWrite(s.pc[t]) { Counted(s.pc, t, HoldsWrite); }
    if HoldsRead(s.pc[t]) { Counted(s.pc, t, HoldsRead); }
  }

  lemma MoveKeepsOwn(l: Local, write: bool)
    requires Placed(l)
    ensures Knows(Move(l, write, true))
  {
  }

  /** What another thread knows survives the move. */
  lemma MoveKeepsOther(l: Local, p: Pc, write: bool)
    requires Placed(l) && Placed(l.(pc := p)) && !(HoldsSpin(l.pc) && HoldsSpin(p))
    ensures Knows(Move(l, write, true).(pc := p))
  {
  }

  /** No step of one thread breaks what another knows. */
  lemma StepKnows(s: State, t: Tid, write: bool)
    requires Inv(s) && t in s.pc
    ensures AllKnow(Next(s, t, write, true))
  {
    hide Holders, Move, HoldsRead, HoldsWrite, HoldsSpin, Knows, Placed;
    var s' := Next(s, t, write, true);
    IsPlaced(s, t);
    MoveKeepsOwn(View(s, t), write);
    forall u | u in s'.pc ensures Knows(View(s', u)) {
      if u != t {
        IsPlaced(s, u);
        MoveKeepsOther(View(s, t), s.pc[u], write);
      }
    }
  }

  /** A writer is alone. */
  lemma SoleWriter(s: State)
    requires CountsOk(s)
    ensures Exclusive(s)
  {
    hide Holders;
  }

  /** Safety over whole runs: in every state of every interleaving the counters are exact and a writer is alone. */
  lemma {:induction false} RunSafe(s: State, schedule: seq<Turn>)
    requires Init(s)
    ensures var e := Exec(s, schedule, true);
            Inv(e) && Exclusive(e) && e.readers == |Readers(e)| && e.writers == |Writers(e)| && e.writers <= 1
  {
    if schedule == [] {
      InitInv(s);
    } else {
      var n := |schedule| - 1;
      RunSafe(s, schedule[..n]);
      StepInv(Exec(s, schedule[..n], true), schedule[n].t, schedule[n].write);
    }
    SoleWriter(Exec(s, schedule, true));
  }

  // ---------- A waiting writer holds new readers off ----------

  /** The step with which a writer's release clears the request. */
  predicate ReleaseStep(s: State, t: Tid) { t in s.pc && s.pc[t].RelRequest? }

  /** No turn of the schedule is such a release step. */
  ghost predicate NoRelease(s: State, schedule: seq<Turn>, atomic: bool) {
    forall i :: 0 <= i < |schedule| ==> !ReleaseStep(Exec(s, schedule[..i], atomic), schedule[i].t)
  }

  lemma NoReleaseFront(s: State, schedule: seq<Turn>, atomic: bool)
    requires NoRelease(s, schedule, atomic) && schedule != []
    ensures var n := |schedule| - 1;
            NoRelease(s, schedule[..n], atomic) && !ReleaseStep(Exec(s, schedule[..n], atomic), schedule[n].t)
  {
    var front := schedule[..|schedule| - 1];
    forall i | 0 <= i < |front| ensures !ReleaseStep(Exec(s, front[..i], atomic), front[i].t) {
      assert front[..i] == schedule[..i];
    }
  }

  lemma MoveBlocks(l: Local, write: bool)
    requires Knows(l) && l.request && !l.pc.RelRequest?
    ensures var l' := Move(l, write, true); l'.request && (HoldsRead(l'.pc) ==> HoldsRead(l.pc))
  {
  }

  lemma StepBlocks(s: State, t: Tid, write: bool)
    requires Inv(s) && s.request && !ReleaseStep(s, t)
    ensures Next(s, t, write, true).request && Readers(Next(s, t, write, true)) <= Readers(s)
  {
    if t in s.pc {
      assert Knows(View(s, t));
      hide Move, Knows, HoldsRead, CountsOk, SpinOk, AllKnow;
      MoveBlocks(View(s, t), write);
    }
  }

  /** Once `write_request` is set, no reader enters and the request stays set until a writer releases. */
  lemma {:induction false} RequestBlocksReaders(s: State, schedule: seq<Turn>)
    requires Inv(s) && s.request && NoRelease(s, schedule, true)
    ensures var e := Exec(s, schedule, true); Inv(e) && e.request && Readers(e) <= Readers(s)
  {
    if schedule != [] {
      var n := |schedule| - 1;
      var front := schedule[..n];
      NoReleaseFront(s, schedule, true);
      RequestBlocksReaders(s, front);
      var m := Exec(s, front, true);
      StepInv(m, schedule[n].t, schedule[n].write);
      StepBlocks(m, schedule[n].t, schedule[n].write);
    }
  }

  /** Only a thread that holds the lock for writing clears the request. */
  lemma OnlyWriterClears(s: State, t: Tid, write: bool)
    requires Inv(s) && s.request && !Next(s, t, write, true).request
    ensures t in Writers(s)
  {
    assert Knows(View(s, t));
  }

  // ---------- One thread running alone ----------

  function Turns(t: Tid, n: nat): seq<Turn> {
    if n == 0 then [] else Turns(t, n - 1) + [Turn(t, false)]
  }

  function Solo(s: State, t: Tid, n: nat, atomic: bool): State {
    if n == 0 then s else Next(Solo(s, t, n - 1, atomic), t, false, atomic)
  }

  /** A stretch of the schedule in which one thread runs alone. */
  lemma {:induction false} Alone(s: State, before: seq<Turn>, t: Tid, n: nat, atomic: bool)
    ensures Exec(s, before + Turns(t, n), atomic) == Solo(Exec(s, before, atomic), t, n, atomic)
  {
    var all := before + Turns(t, n);
    if n == 0 {
      assert all == before;
    } else {
      Alone(s, before, t, n - 1, atomic);
      assert all[..|all| - 1] == before + Turns(t, n - 1);
      assert all[|all| - 1] == Turn(t, false);
    }
  }

  /** What the thread sees of such a stretch: it changes nothing but the shared words and its program counter. */
  function SoloLocal(l: Local, n: nat, atomic: bool): Local {
    if n == 0 then l else Move(SoloLocal(l, n - 1, atomic), false, atomic)
  }

  lemma {:induction false} SoloView(s: State, t: Tid, n: nat, atomic: bool)
    requires t in s.pc
    ensures var l := SoloLocal(View(s, t), n, atomic);
            Solo(s, t, n, atomic) == State(l.readers, l.writers, l.request, l.spin, s.pc[t := l.pc])
  {
    hide Move;
    if n > 0 {
      SoloView(s, t, n - 1, atomic);
      var l := SoloLocal(View(s, t), n - 1, atomic);
      assert s.pc[t := l.pc][t := Move(l, false, atomic).pc] == s.pc[t := Move(l, false, atomic).pc];
    } else {
      assert s.pc == s.pc[t := s.pc[t]];
    }
  }

  // ---------- The increment that is not atomic ----------

  /** What a thread knows at its program counter when the increment is a load and a store. */
  predicate TornKnows(l: Local) {
    && (l.pc.WReadWriters? ==> l.readers == 0)
    && (l.pc.WInc? ==> l.readers == 0 && l.writers == 0)
    && (l.pc.RReadRequest? ==> l.writers == 0)
    && (l.pc.RInc? ==> l.writers == 0 && !l.request)
    && (l.pc.RStore? ==> l.writers == 0 && !l.request && l.pc.seen >= l.readers)
    && l.pc != RelRequest(false) && l.pc != RelWriters(false) && l.pc != RelDec(true)
  }

  /** The writer count is exact, the reader count is not too low, and a writer is alone. */
  ghost predicate TornInv(s: State) {
    && s.readers >= |Readers(s)| && s.writers == |Writers(s)| && s.writers <= 1 && (s.writers == 1 ==> |Readers(s)| == 0)
    && SpinOk(s) && forall t :: t in s.pc ==> TornKnows(View(s, t))
  }

  /** What the counts say about a thread that is about to move; `n` readers hold the lock. */
  predicate TornPlaced(l: Local, n: nat) {
    && TornKnows(l) && 0 <= l.writers <= 1 && l.readers >= n && (l.writers == 1 ==> n == 0)
    && (HoldsWrite(l.pc) ==> l.writers == 1) && (HoldsRead(l.pc) ==> n >= 1) && (HoldsSpin(l.pc) ==> l.spin)
  }

  lemma TornReaders(l: Local, write: bool, n: nat)
    requires TornPlaced(l, n)
    ensures var l' := Move(l, write, false); l'.readers >= n + Bit(HoldsRead(l'.pc)) - Bit(HoldsRead(l.pc))
  {
    hide HoldsSpin, HoldsWrite;
    match l.pc
    case RStore(_) => case RUnlock => case Reading => case RelTest(_) => case RelDec(_) =>
    case _ =>
  }

  lemma TornWriters(l: Local, write: bool, n: nat)
    requires TornPlaced(l, n)
    ensures var l' := Move(l, write, false);
            l'.writers == l.writers + Bit(HoldsWrite(l'.pc)) - Bit(HoldsWrite(l.pc)) && l'.writers <= 1
  {
    hide HoldsSpin, HoldsRead;
    match l.pc
    case WInc => case WUnlock => case Writing => case RelTest(_) => case RelRequest(_) => case RelWriters(_) =>
    case _ =>
  }

  lemma TornExclusive(l: Local, write: bool, n: nat)
    requires TornPlaced(l, n)
    ensures var l' := Move(l, write, false); l'.writers == 1 ==> n + Bit(HoldsRead(l'.pc)) - Bit(HoldsRead(l.pc)) == 0
  {
    hide HoldsSpin;
  }

  lemma TornKeepsOwn(l: Local, write: bool, n: nat)
    requires TornPlaced(l, n)
    ensures TornKnows(Move(l, write, false))
  {
    hide HoldsSpin;
  }

  lemma TornKeepsOther(l: Local, p: Pc, write: bool, n: nat)
    requires TornPlaced(l, n) && TornPlaced(l.(pc := p), n) && !(HoldsSpin(l.pc) && HoldsSpin(p))
    ensures TornKnows(Move(l, write, false).(pc := p))
  {
  }

  lemma IsTornPlaced(s: State, t: Tid)
    requires TornInv(s) && t in s.pc
    ensures TornPlaced(View(s, t), |Readers(s)|)
  {
    hide HoldsRead, HoldsWrite, HoldsSpin;
    SpinAlone(s, t);
    if HoldsWrite(s.pc[t]) { Counted(s.pc, t, HoldsWrite); }
    if HoldsRead(s.pc[t]) { Counted(s.pc, t, HoldsRead); }
  }

  lemma TornStep(s: State, t: Tid, write: bool)
    requires TornInv(s)
    ensures TornInv(Next(s, t, write, false))
  {
    if t in s.pc {
      hide Holders, Move, HoldsRead, HoldsWrite, HoldsSpin, TornKnows, TornPlaced;
      var l, n := View(s, t), |Readers(s)|;
      var l', s' := Move(l, write, false), Next(s, t, write, false);
      IsTornPlaced(s, t);
      SpinAlone(s, t);
      PlacedSpin(l, n);
      TornReaders(l, write, n);
      TornWriters(l, write, n);
      TornExclusive(l, write, n);
      MoveSpinsTorn(l, write);
      MoveCount(s.pc, t, l'.pc, HoldsRead);
      MoveCount(s.pc, t, l'.pc, HoldsWrite);
      MoveCount(s.pc, t, l'.pc, HoldsSpin);
      TornKeepsOwn(l, write, n);
      forall u | u in s'.pc ensures TornKnows(View(s', u)) {
        if u != t {
          IsTornPlaced(s, u);
          TornKeepsOther(l, s.pc[u], write, n);
        }
      }
    }
  }

  lemma PlacedSpin(l: Local, n: nat)
    requires TornPlaced(l, n)
    ensures HoldsSpin(l.pc) ==> l.spin
  {
  }

  /**
    Safety of the code as written: even when increments are torn, a writer is alone in every state of
    every interleaving, and the reader count is never too low.
   */
  lemma {:induction false} TornRunSafe(s: State, schedule: seq<Turn>)
    requires Init(s)
    ensures var e := Exec(s, schedule, false);
            TornInv(e) && Exclusive(e) && e.readers >= |Readers(e)| && e.writers == |Writers(e)|
  {
    if schedule == [] {
      InitInv(s);
      hide Holders;
    } else {
      var n := |schedule| - 1;
      TornRunSafe(s, schedule[..n]);
      hide TornInv, Exclusive;
      TornStep(Exec(s, schedule[..n], false), schedule[n].t, schedule[n].write);
    }
    TornSoleWriter(Exec(s, schedule, false));
  }

  lemma TornSoleWriter(s: State)
    requires TornInv(s)
    ensures Exclusive(s)
  {
    hide Holders;
  }

  /** A set request keeps readers out there too, until a writer releases. */
  lemma TornRequestBlocks(s: State, t: Tid, write: bool)
    requires TornInv(s) && s.request && !ReleaseStep(s, t)
    ensures Next(s, t, write, false).request && Readers(Next(s, t, write, false)) <= Readers(s)
  {
    if t in s.pc {
      assert TornKnows(View(s, t));
      hide Move, TornKnows, HoldsRead, SpinOk;
      TornMoveBlocks(View(s, t), write);
    }
  }

  lemma {:induction false} TornRequestBlocksReaders(s: State, schedule: seq<Turn>)
    requires TornInv(s) && s.request && NoRelease(s, schedule, false)
    ensures var e := Exec(s, schedule, false); TornInv(e) && e.request && Readers(e) <= Readers(s)
  {
    if schedule != [] {
      var n := |schedule| - 1;
      NoReleaseFront(s, schedule, false);
      TornRequestBlocksReaders(s, schedule[..n]);
      hide TornInv, Readers, NoRelease, ReleaseStep;
      TornStep(Exec(s, schedule[..n], false), schedule[n].t, schedule[n].write);
      TornRequestBlocks(Exec(s, schedule[..n], false), schedule[n].t, schedule[n].write);
    }
  }

  lemma TornMoveBlocks(l: Local, write: bool)
    requires TornKnows(l) && l.request && !l.pc.RelRequest?
    ensures var l' := Move(l, write, false); l'.request && (HoldsRead(l'.pc) ==> HoldsRead(l.pc))
  {
  }

  /**
    A thread that neither writes nor is about to, and whose half-done increment started from at least the
    present count.
   */
  predicate Harmless(l: Local) {
    && !HoldsWrite(l.pc) && !l.pc.WReadWriters? && !l.pc.WInc?
    && !l.pc.RelRequest? && !l.pc.RelWriters? && l.pc != RelDec(true)
    && (l.pc.RStore? ==> l.pc.seen >= l.readers)
  }

  /** The counter exceeds the number of readers, and no writer is inside. */
  ghost predicate Wedged(s: State) {
    s.writers == 0 && s.readers > |Readers(s)| && SpinOk(s) && forall t :: t in s.pc ==> Harmless(View(s, t))
  }

  /** With torn increments the counter never comes closer to the number of readers. */
  lemma MoveWedged(l: Local, write: bool)
    requires Harmless(l) && l.writers == 0 && l.readers > 0
    ensures var l' := Move(l, write, false);
      && l'.writers == 0 && Harmless(l') && l'.readers >= l.readers + Bit(HoldsRead(l'.pc)) - Bit(HoldsRead(l.pc))
      && (l'.readers > l.readers ==> HoldsSpin(l.pc))
  {
  }

  lemma MoveSpinsTorn(l: Local, write: bool)
    requires HoldsSpin(l.pc) ==> l.spin
    ensures var l' := Move(l, write, false); Bit(l'.spin) == Bit(l.spin) + Bit(HoldsSpin(l'.pc)) - Bit(HoldsSpin(l.pc))
  {
  }

  lemma SpinAlone(s: State, t: Tid)
    requires SpinOk(s) && t in s.pc
    ensures HoldsSpin(s.pc[t]) ==> s.spin && forall u :: u in s.pc && u != t ==> !HoldsSpin(s.pc[u])
  {
    hide HoldsSpin;
    if HoldsSpin(s.pc[t]) {
      Counted(s.pc, t, HoldsSpin);
      forall u | u in s.pc && u != t ensures !HoldsSpin(s.pc[u]) {
        assert u !in Holders(s.pc, HoldsSpin);
      }
    }
  }

  lemma WedgedStep(s: State, t: Tid, write: bool)
    requires Wedged(s)
    ensures Wedged(Next(s, t, write, false))
  {
    if t in s.pc {
      hide Holders, Move, HoldsRead, HoldsSpin, HoldsWrite;
      var l := View(s, t);
      var l', s' := Move(l, write, false), Next(s, t, write, false);
      assert Harmless(l);
      SpinAlone(s, t);
      MoveWedged(l, write);
      MoveSpinsTorn(l, write);
      MoveCount(s.pc, t, l'.pc, HoldsRead);
      MoveCount(s.pc, t, l'.pc, HoldsSpin);
      forall u | u in s'.pc ensures Harmless(View(s', u)) {
        if u != t {
          assert Harmless(View(s, u));
          StoreHoldsSpin(s.pc[u]);
        }
      }
    }
  }

  lemma StoreHoldsSpin(p: Pc)
    ensures p.RStore? ==> HoldsSpin(p)
  {
  }

  /** From a wedged state, whatever the threads do, no writer ever enters. */
  lemma {:induction false} WedgedForever(s: State, schedule: seq<Turn>)
    requires Wedged(s)
    ensures Wedged(Exec(s, schedule, false)) && Writers(Exec(s, schedule, false)) == {}
  {
    if schedule != [] {
      var n := |schedule| - 1;
      WedgedForever(s, schedule[..n]);
      hide Wedged;
      WedgedStep(Exec(s, schedule[..n], false), schedule[n].t, schedule[n].write);
    }
    NoWriters(Exec(s, schedule, false));
  }

  lemma NoWriters(s: State)
    requires Wedged(s)
    ensures Writers(s) == {}
  {
    hide HoldsWrite;
    forall t | t in s.pc ensures !HoldsWrite(s.pc[t]) {
      assert Harmless(View(s, t));
    }
  }

  /**
    `num_readers += 1` is a load and a store, while rwlock_release decrements outside the spinlock.
    When a reader releases between the two, its release is lost and the lock is wedged.
   */
  lemma TornIncrementLosesRelease()
    ensures exists s, schedule :: Init(s) && Wedged(Exec(s, schedule, false))
  {
    var s := Two(0, false, Idle, Idle);
    TornEntry();
    TornLoad();
    TornRelease();
    TornStore();
    hide Next, Solo, Turns, Wedged;
    Alone(s, [], 0, 7, false);
    Alone(s, [] + Turns(0, 7), 1, 5, false);
    Alone(s, [] + Turns(0, 7) + Turns(1, 5), 0, 3, false);
    Alone(s, [] + Turns(0, 7) + Turns(1, 5) + Turns(0, 3), 1, 1, false);
    TornWedged();
    assert Init(s) && Wedged(Exec(s, [] + Turns(0, 7) + Turns(1, 5) + Turns(0, 3) + Turns(1, 1), false));
  }

  /** A lock without writers, used by two threads. */
  function Two(readers: int, spin: bool, p: Pc, q: Pc): State {
    State(readers, 0, false, spin, map[0 := p, 1 := q])
  }

  /** Thread 0 enters as a reader. */
  lemma TornEntry()
    ensures Solo(Two(0, false, Idle, Idle), 0, 7, false) == Two(1, false, Reading, Idle)
  {
    EntryLocal();
    hide SoloLocal, Solo, Move;
    SoloView(Two(0, false, Idle, Idle), 0, 7, false);
  }

  lemma EntryLocal()
    ensures SoloLocal(Local(0, 0, false, false, Idle), 7, false) == Local(1, 0, false, false, Reading)
  {
    var l := Local(0, 0, false, false, Idle);
    assert SoloLocal(l, 4, false) == Local(0, 0, false, true, RInc) by {
      assert SoloLocal(l, 2, false) == Local(0, 0, false, true, RReadWriters);
    }
    assert SoloLocal(l, 5, false) == Local(0, 0, false, true, RStore(0));
    assert SoloLocal(l, 6, false) == Local(1, 0, false, true, RUnlock);
  }

  /** Thread 1 loads the counter. */
  lemma TornLoad()
    ensures Solo(Two(1, false, Reading, Idle), 1, 5, false) == Two(1, true, Reading, RStore(1))
  {
    var l := Local(1, 0, false, false, Idle);
    assert SoloLocal(l, 2, false) == Local(1, 0, false, true, RReadWriters);
    assert SoloLocal(l, 4, false) == Local(1, 0, false, true, RInc);
    assert SoloLocal(l, 5, false) == Local(1, 0, false, true, RStore(1));
    hide SoloLocal, Solo, Move;
    SoloView(Two(1, false, Reading, Idle), 1, 5, false);
  }

  /** Thread 0 releases. */
  lemma TornRelease()
    ensures Solo(Two(1, true, Reading, RStore(1)), 0, 3, false) == Two(0, true, Idle, RStore(1))
  {
    var l := Local(1, 0, false, true, Reading);
    assert SoloLocal(l, 2, false) == Local(1, 0, false, true, RelDec(false));
    assert SoloLocal(l, 3, false) == Local(0, 0, false, true, Idle);
    hide SoloLocal, Solo, Move;
    SoloView(Two(1, true, Reading, RStore(1)), 0, 3, false);
  }

  /** Thread 1 stores what it computed from the old value. */
  lemma TornStore()
    ensures Solo(Two(0, true, Idle, RStore(1)), 1, 1, false) == Two(2, true, Idle, RUnlock)
  {
    assert SoloLocal(Local(0, 0, false, true, RStore(1)), 1, false) == Local(2, 0, false, true, RUnlock);
    hide SoloLocal, Solo, Move;
    SoloView(Two(0, true, Idle, RStore(1)), 1, 1, false);
  }

  lemma TornWedged()
    ensures Wedged(Two(2, true, Idle, RUnlock))
  {
    assert Readers(Two(2, true, Idle, RUnlock)) == {1} && Spinners(Two(2, true, Idle, RUnlock)) == {1};
  }
}
