/**
  The run queue, the timer queue and the thread states of one CPU (kernel/src/scheduler.c and
  set_thread_state, go_dormant of kernel/src/threads.c), and what each step does to them.
 */
module SchedulerState {
  import opened Bits
  import opened Seqs

  type Tid = nat

  datatype TState =
    System | Running | Suspended | Dormant | Stopped | Semaphore | Sleeping | Waiting | Finished | Crashed | Irq

  datatype Thread = Thread(state: TState, duration: nat)

  /** An entry of the pause queue. */
  datatype Paused = Paused(tr: Tid, state: TState, request: nat, start: nat)

  /** `request` is the state change that the running thread has asked the scheduler to make. */
  datatype Sched = Sched(run: seq<Tid>, paused: seq<Paused>, position: nat, threads: map<Tid, Thread>,
                         current: Option<Tid>, request: Option<(Tid, TState)>)

  const SCHED_SIZE: nat := 1024
  const UINT_MAX: nat := 0xFFFF_FFFF

  // ---------- The invariant ----------

  predicate IsRunning(threads: map<Tid, Thread>, t: Tid) { t in threads && threads[t].state.Running? }

  /** The run queue holds exactly the running threads, each once. */
  ghost predicate RunOk(run: seq<Tid>, threads: map<Tid, Thread>) {
    NoDup(run) && forall t :: t in run <==> IsRunning(threads, t)
  }

  ghost predicate CursorOk(run: seq<Tid>, position: nat) {
    if run == [] then position == 0 else position < |run|
  }

  predicate InTimers(paused: seq<Paused>, t: Tid) { exists i :: 0 <= i < |paused| && paused[i].tr == t }

  /** Timer entries are in deadline order and belong to different threads. */
  ghost predicate TimersOrdered(paused: seq<Paused>) {
    forall i, j :: 0 <= i < j < |paused| ==> paused[i].tr != paused[j].tr && paused[i].request <= paused[j].request
  }

  /** A thread with a timer is dormant with a duration, or is the running thread about to become so. */
  predicate Sleeps(e: Paused, threads: map<Tid, Thread>, request: Option<(Tid, TState)>) {
    && e.tr in threads && e.state.Running? && threads[e.tr].duration > 0
    && (threads[e.tr].state.Dormant? || (threads[e.tr].state.Running? && request == Some((e.tr, Dormant))))
  }

  ghost predicate TimersOk(paused: seq<Paused>, threads: map<Tid, Thread>, request: Option<(Tid, TState)>) {
    && TimersOrdered(paused)
    && (forall i :: 0 <= i < |paused| ==> Sleeps(paused[i], threads, request))
    && (forall t :: t in threads && threads[t].state.Dormant? && threads[t].duration > 0 ==> InTimers(paused, t))
  }

  /** A pending request is the running thread's own, and leaves the running state. */
  ghost predicate RequestOk(s: Sched) {
    match s.request
    case None => true
    case Some(r) =>
      && s.current == Some(r.0) && IsRunning(s.threads, r.0) && !r.1.Running?
      && (r.1.Dormant? && s.threads[r.0].duration > 0 ==> InTimers(s.paused, r.0))
  }

  ghost predicate Inv(s: Sched) {
    && RunOk(s.run, s.threads) && CursorOk(s.run, s.position)
    && TimersOk(s.paused, s.threads, s.request) && RequestOk(s)
  }

  /** What holds at the top of the scheduler loop, where no thread runs and no request is pending. */
  ghost predicate AtTop(s: Sched) { Inv(s) && s.current.None? && s.request.None? }

  /** At the top of the loop the two queues are disjoint and every timer entry is a dormant thread. */
  lemma TopSeparated(s: Sched)
    requires AtTop(s)
    ensures forall i :: 0 <= i < |s.paused| ==>
      s.paused[i].tr !in s.run && s.threads[s.paused[i].tr].state.Dormant? && s.threads[s.paused[i].tr].duration > 0
  {
    forall i | 0 <= i < |s.paused| ensures s.paused[i].tr !in s.run {
      assert Sleeps(s.paused[i], s.threads, s.request);
    }
  }

  // ---------- Leaving and joining the run queue ----------

  /** The cursor after a removal: position - 1 in unsigned 32-bit arithmetic, modulo the new count. */
  function CursorBack(position: nat, count: nat): (p: nat)
    ensures if count == 0 then p == 0 else p < count
  {
    if count == 0 then 0 else (if position == 0 then UINT_MAX else position - 1) % count
  }

  function Left(s: Sched, t: Tid, st: TState): Sched
    requires t in s.threads
  {
    var run := Without(s.run, t);
    s.(run := run, position := CursorBack(s.position, |run|), threads := s.threads[t := s.threads[t].(state := st)])
  }

  lemma LeaveRun(run: seq<Tid>, threads: map<Tid, Thread>, t: Tid, th: Thread)
    requires RunOk(run, threads) && t in threads && !th.state.Running?
    ensures RunOk(Without(run, t), threads[t := th])
  {
    WithoutDistinct(run, t);
  }

  lemma JoinRun(run: seq<Tid>, threads: map<Tid, Thread>, t: Tid, th: Thread)
    requires RunOk(run, threads) && t in threads && !threads[t].state.Running? && th.state.Running?
    ensures RunOk(run + [t], threads[t := th])
  {
    assert t !in run;
    assert NoDup(run + [t]);
  }

  lemma JoinCursor(run: seq<Tid>, position: nat, t: Tid)
    requires CursorOk(run, position)
    ensures CursorOk(run + [t], position)
  {
  }

  // ---------- set_thread_state on another thread ----------

  /** restart: the thread's timer moves to the front of the pause queue with an expired deadline. */
  function Restarted(paused: seq<Paused>, i: nat): (r: seq<Paused>)
    requires i < |paused|
    ensures |r| == |paused|
  {
    [paused[i].(request := 0)] + RemoveAt(paused, i)
  }

  lemma RestartKeeps(paused: seq<Paused>, threads: map<Tid, Thread>, request: Option<(Tid, TState)>, i: nat)
    requires TimersOk(paused, threads, request) && i < |paused|
    ensures TimersOk(Restarted(paused, i), threads, request)
    ensures forall t :: InTimers(Restarted(paused, i), t) <==> InTimers(paused, t)
  {
    var r := Restarted(paused, i);
    assert forall j :: 1 <= j < |r| ==> r[j] == paused[if j - 1 < i then j - 1 else j];
    forall j | 0 <= j < |r| ensures Sleeps(r[j], threads, request) {
      assert Sleeps(paused[if j == 0 then i else if j - 1 < i then j - 1 else j], threads, request);
    }
    RestartOrder(paused, i);
    RestartMembers(paused, i);
    hide Restarted, InTimers, TimersOrdered, Sleeps;
  }

  lemma RestartOrder(paused: seq<Paused>, i: nat)
    requires TimersOrdered(paused) && i < |paused|
    ensures TimersOrdered(Restarted(paused, i))
  {
    var r := Restarted(paused, i);
    assert forall j :: 1 <= j < |r| ==> r[j] == paused[if j - 1 < i then j - 1 else j];
  }

  lemma RestartMembers(paused: seq<Paused>, i: nat)
    requires i < |paused|
    ensures forall t :: InTimers(Restarted(paused, i), t) <==> InTimers(paused, t)
  {
    var r := Restarted(paused, i);
    assert r[0].tr == paused[i].tr;
    forall t ensures InTimers(r, t) <==> InTimers(paused, t) {
      if InTimers(paused, t) {
        var j :| 0 <= j < |paused| && paused[j].tr == t;
        assert r[if j == i then 0 else if j < i then j + 1 else j].tr == t;
      }
      if InTimers(r, t) {
        var j :| 0 <= j < |r| && r[j].tr == t;
        assert paused[if j == 0 then i else if j - 1 < i then j - 1 else j].tr == t;
      }
    }
  }

  /** Changing the state of a thread that has no timer and takes none. */
  lemma TimersUnaffected(paused: seq<Paused>, threads: map<Tid, Thread>, request: Option<(Tid, TState)>, t: Tid,
                         th: Thread)
    requires TimersOk(paused, threads, request) && t in threads && !InTimers(paused, t)
    requires th.state.Dormant? ==> th.duration == 0
    ensures TimersOk(paused, threads[t := th], request)
  {
    forall i | 0 <= i < |paused| ensures Sleeps(paused[i], threads[t := th], request) {
      assert Sleeps(paused[i], threads, request);
    }
  }

  /** A thread that is neither running the CPU nor dormant with a duration has no timer. */
  lemma NoTimer(s: Sched, t: Tid)
    requires Inv(s) && t in s.threads && s.current != Some(t)
    requires !(s.threads[t].state.Dormant? && s.threads[t].duration > 0)
    ensures !InTimers(s.paused, t)
  {
    forall i | 0 <= i < |s.paused| ensures s.paused[i].tr != t {
      assert Sleeps(s.paused[i], s.threads, s.request);
    }
  }

  /** set_thread_state for a thread other than the current one, outside the timer case. */
  function Moved(s: Sched, t: Tid, st: TState): Sched
    requires t in s.threads
  {
    var s1 := if s.threads[t].state.Running? then Left(s, t, st) else s.(threads := s.threads[t := s.threads[t].(state := st)]);
    if st.Running? then s1.(run := s1.run + [t]) else s1
  }

  lemma MovedInv(s: Sched, t: Tid, st: TState)
    requires Inv(s) && t in s.threads && s.current != Some(t) && s.threads[t].state != st && !st.Dormant?
    requires !(s.threads[t].state.Dormant? && s.threads[t].duration > 0)
    ensures Inv(Moved(s, t, st))
  {
    hide RunOk, TimersOk, CursorOk;
    NoTimer(s, t);
    var th := s.threads[t].(state := st);
    TimersUnaffected(s.paused, s.threads, s.request, t, th);
    if s.threads[t].state.Running? {
      LeaveRun(s.run, s.threads, t, th);
      CursorAfterLeave(s.run, s.position, t);
    } else if st.Running? {
      JoinRun(s.run, s.threads, t, th);
      JoinCursor(s.run, s.position, t);
    } else {
      OutsideRun(s.run, s.threads, t, th);
    }
  }

  lemma CursorAfterLeave(run: seq<Tid>, position: nat, t: Tid)
    ensures CursorOk(Without(run, t), CursorBack(position, |Without(run, t)|))
  {
  }

  lemma OutsideRun(run: seq<Tid>, threads: map<Tid, Thread>, t: Tid, th: Thread)
    requires RunOk(run, threads) && t in threads && !threads[t].state.Running? && !th.state.Running?
    ensures RunOk(run, threads[t := th])
  {
  }

  // ---------- The running thread asks for a change ----------

  lemma RequestInv(s: Sched, st: TState)
    requires Inv(s) && s.current.Some? && IsRunning(s.threads, s.current.value) && !st.Running?
    requires s.request != Some((s.current.value, Dormant)) && (st.Dormant? ==> s.threads[s.current.value].duration == 0)
    ensures Inv(s.(request := Some((s.current.value, st))))
  {
    forall i | 0 <= i < |s.paused| ensures Sleeps(s.paused[i], s.threads, Some((s.current.value, st))) {
      assert Sleeps(s.paused[i], s.threads, s.request);
    }
  }

  /**
    How many entries at the front are due at a time: what expires then, and where pause inserts a
    deadline of that time.
   */
  function Due(paused: seq<Paused>, now: nat): (n: nat)
    ensures n <= |paused|
    ensures forall i :: 0 <= i < n ==> paused[i].request <= now
    ensures n < |paused| ==> paused[n].request > now
  {
    if paused == [] || paused[0].request > now then 0 else 1 + Due(paused[1..], now)
  }

  /** pause, as go_dormant calls it for the running thread. */
  function Slept(s: Sched, ms: nat, now: nat): Sched
    requires s.current.Some? && s.current.value in s.threads
  {
    var t := s.current.value;
    s.(paused := InsertAt(s.paused, Due(s.paused, now + ms), Paused(t, s.threads[t].state, now + ms, now)),
       threads := s.threads[t := s.threads[t].(duration := ms)], request := Some((t, Dormant)))
  }

  lemma SleptInv(s: Sched, ms: nat, now: nat)
    requires Inv(s) && s.current.Some? && IsRunning(s.threads, s.current.value) && ms > 0
    requires s.request != Some((s.current.value, Dormant))
    ensures Inv(Slept(s, ms, now))
  {
    var t, s' := s.current.value, Slept(s, ms, now);
    var p := Due(s.paused, now + ms);
    assert !InTimers(s.paused, t) by {
      forall i | 0 <= i < |s.paused| ensures s.paused[i].tr != t {
        assert Sleeps(s.paused[i], s.threads, s.request);
      }
    }
    hide RunOk;
    SleptTimers(s.paused, s.threads, s.request, t, ms, now);
    assert s'.paused[p].tr == t;
    DurationIrrelevant(s.run, s.threads, t, ms);
  }

  lemma DurationIrrelevant(run: seq<Tid>, threads: map<Tid, Thread>, t: Tid, d: nat)
    requires RunOk(run, threads) && t in threads
    ensures RunOk(run, threads[t := threads[t].(duration := d)])
  {
  }

  lemma SleptTimers(paused: seq<Paused>, threads: map<Tid, Thread>, request: Option<(Tid, TState)>, t: Tid, ms: nat,
                    now: nat)
    requires TimersOk(paused, threads, request) && IsRunning(threads, t) && ms > 0 && !InTimers(paused, t)
    requires request != Some((t, Dormant)) && (request.Some? ==> request.value.0 == t)
    ensures TimersOk(InsertAt(paused, Due(paused, now + ms), Paused(t, Running, now + ms, now)),
                     threads[t := threads[t].(duration := ms)], Some((t, Dormant)))
  {
    hide Due;
    var p := Due(paused, now + ms);
    var r := InsertAt(paused, p, Paused(t, Running, now + ms, now));
    var threads' := threads[t := threads[t].(duration := ms)];
    SleptOrder(paused, p, Paused(t, Running, now + ms, now));
    forall i | 0 <= i < |r| ensures Sleeps(r[i], threads', Some((t, Dormant))) {
      if i != p {
        assert Sleeps(paused[if i < p then i else i - 1], threads, request);
      }
    }
    forall u | u in threads' && threads'[u].state.Dormant? && threads'[u].duration > 0 ensures InTimers(r, u) {
      assert InTimers(paused, u);
      var i :| 0 <= i < |paused| && paused[i].tr == u;
      assert r[if i < p then i else i + 1].tr == u;
    }
  }

  lemma SleptOrder(paused: seq<Paused>, p: nat, e: Paused)
    requires TimersOrdered(paused) && p <= |paused| && !InTimers(paused, e.tr)
    requires forall i :: 0 <= i < p ==> paused[i].request <= e.request
    requires p < |paused| ==> paused[p].request > e.request
    ensures TimersOrdered(InsertAt(paused, p, e))
  {
  }

  // ---------- The scheduler honours the request ----------

  /** The running thread returns to the scheduler and remove_last makes its requested change. */
  function Returned(s: Sched): Sched {
    var s1 := s.(current := None, request := None);
    match s.request
    case None => s1
    case Some(r) => if r.0 !in s.run || r.0 !in s.threads then s1 else Left(s1, r.0, r.1)
  }

  lemma ReturnedTop(s: Sched)
    requires Inv(s)
    ensures AtTop(Returned(s))
  {
    match s.request
    case None =>
    case Some(r) =>
      var th := s.threads[r.0].(state := r.1);
      assert r.0 in s.run;
      ReturnedTimers(s);
      hide RunOk, TimersOk, CursorOk;
      LeaveRun(s.run, s.threads, r.0, th);
      CursorAfterLeave(s.run, s.position, r.0);
  }

  lemma ReturnedTimers(s: Sched)
    requires Inv(s) && s.request.Some?
    ensures TimersOk(s.paused, s.threads[s.request.value.0 := s.threads[s.request.value.0].(state := s.request.value.1)], None)
  {
    var r := s.request.value;
    var threads' := s.threads[r.0 := s.threads[r.0].(state := r.1)];
    forall i | 0 <= i < |s.paused| ensures Sleeps(s.paused[i], threads', None) {
      assert Sleeps(s.paused[i], s.threads, s.request);
    }
  }

  // ---------- Expiry ----------

  function Threads(paused: seq<Paused>): seq<Tid> { seq(|paused|, i requires 0 <= i < |paused| => paused[i].tr) }

  /** How long the thread of an entry has slept. */
  function TimeAsleep(e: Paused, now: nat): nat { if now >= e.start then now - e.start else 0 }

  /** The threads of the first `n` entries wake up, with the time they slept as their duration. */
  function Woken(threads: map<Tid, Thread>, paused: seq<Paused>, n: nat, now: nat): map<Tid, Thread>
    requires n <= |paused|
  {
    if n == 0 then threads
    else
      var e := paused[n - 1];
      Woken(threads, paused, n - 1, now)[e.tr := Thread(e.state, TimeAsleep(e, now))]
  }

  /** remove_timers. */
  function Expired(s: Sched, now: nat): Sched {
    var n := Due(s.paused, now);
    s.(run := s.run + Threads(s.paused[..n]), paused := s.paused[n..], threads := Woken(s.threads, s.paused, n, now))
  }

  /** The time to the next deadline, or 0 when no timer is left. */
  function NextDeadline(s: Sched, now: nat): int {
    if s.paused == [] then 0 else s.paused[0].request - now
  }

  /** Exactly the entries with a deadline that has passed are at the front. */
  lemma DueExact(paused: seq<Paused>, now: nat)
    requires TimersOrdered(paused)
    ensures forall i :: 0 <= i < |paused| ==> (i < Due(paused, now) <==> paused[i].request <= now)
  {
    var n := Due(paused, now);
    hide Due;
    forall i | n <= i < |paused| ensures paused[i].request > now {
      assert paused[n].request <= paused[i].request || i == n;
    }
  }

  lemma {:induction false} WokenThreads(threads: map<Tid, Thread>, paused: seq<Paused>, n: nat, now: nat)
    requires n <= |paused| && TimersOrdered(paused)
    ensures forall i | 0 <= i < n ::
              && paused[i].tr in Woken(threads, paused, n, now)
              && Woken(threads, paused, n, now)[paused[i].tr] == Thread(paused[i].state, TimeAsleep(paused[i], now))
    ensures forall t :: t in threads && !InTimers(paused[..n], t) ==>
      t in Woken(threads, paused, n, now) && Woken(threads, paused, n, now)[t] == threads[t]
    ensures forall t :: t in Woken(threads, paused, n, now) ==> t in threads || InTimers(paused[..n], t)
  {
    if n > 0 {
      WokenThreads(threads, paused, n - 1, now);
      TimersGrow(paused, n);
      hide InTimers, TimeAsleep;
    }
  }

  lemma TimersGrow(paused: seq<Paused>, n: nat)
    requires 0 < n <= |paused|
    ensures forall t :: InTimers(paused[..n], t) <==> InTimers(paused[..n - 1], t) || t == paused[n - 1].tr
  {
    forall t ensures InTimers(paused[..n], t) <==> InTimers(paused[..n - 1], t) || t == paused[n - 1].tr {
      if InTimers(paused[..n - 1], t) {
        var i :| 0 <= i < n - 1 && paused[..n - 1][i].tr == t;
        assert paused[..n][i].tr == t;
      }
      assert paused[..n][n - 1].tr == paused[n - 1].tr;
    }
  }

  /** One due entry joins the run queue: the body of the loop of remove_timers. */
  lemma ExpireOne(s: Sched, n: nat, now: nat)
    requires AtTop(s) && n < |s.paused|
    requires RunOk(s.run + Threads(s.paused[..n]), Woken(s.threads, s.paused, n, now))
    ensures RunOk(s.run + Threads(s.paused[..n + 1]), Woken(s.threads, s.paused, n + 1, now))
  {
    NotYetWoken(s, n, now);
    ThreadsGrow(s.run, s.paused, n);
    hide RunOk, CursorOk, RequestOk, TimersOk, Threads, Sleeps;
    var e := s.paused[n];
    var run, threads := s.run + Threads(s.paused[..n]), Woken(s.threads, s.paused, n, now);
    JoinRun(run, threads, e.tr, Thread(e.state, TimeAsleep(e, now)));
  }

  /** The thread of the next entry is still dormant. */
  lemma NotYetWoken(s: Sched, n: nat, now: nat)
    requires AtTop(s) && n < |s.paused|
    ensures var e, threads := s.paused[n], Woken(s.threads, s.paused, n, now);
            e.state.Running? && e.tr in threads && !threads[e.tr].state.Running?
  {
    hide RunOk, CursorOk, RequestOk, Woken;
    assert Sleeps(s.paused[n], s.threads, s.request);
    WokenThreads(s.threads, s.paused, n, now);
    assert !InTimers(s.paused[..n], s.paused[n].tr);
  }

  lemma ThreadsGrow(run: seq<Tid>, paused: seq<Paused>, n: nat)
    requires n < |paused|
    ensures run + Threads(paused[..n + 1]) == run + Threads(paused[..n]) + [paused[n].tr]
  {
  }

  lemma {:induction false} ExpireRun(s: Sched, n: nat, now: nat)
    requires AtTop(s) && n <= |s.paused|
    ensures RunOk(s.run + Threads(s.paused[..n]), Woken(s.threads, s.paused, n, now))
  {
    if n == 0 {
      assert s.run + Threads(s.paused[..0]) == s.run;
    } else {
      ExpireRun(s, n - 1, now);
      ExpireOne(s, n - 1, now);
    }
  }

  lemma ExpireTimers(s: Sched, n: nat, now: nat)
    requires AtTop(s) && n <= |s.paused|
    ensures TimersOk(s.paused[n..], Woken(s.threads, s.paused, n, now), None)
  {
    hide RunOk;
    var rest, threads := s.paused[n..], Woken(s.threads, s.paused, n, now);
    WokenThreads(s.threads, s.paused, n, now);
    forall i | 0 <= i < |rest| ensures Sleeps(rest[i], threads, None) {
      assert Sleeps(s.paused[n + i], s.threads, s.request);
      assert !InTimers(s.paused[..n], rest[i].tr);
    }
    forall t | t in threads && threads[t].state.Dormant? && threads[t].duration > 0 ensures InTimers(rest, t) {
      ExpireLeaves(s, n, now, t);
    }
  }

  lemma ExpireLeaves(s: Sched, n: nat, now: nat, t: Tid)
    requires AtTop(s) && n <= |s.paused| && t in Woken(s.threads, s.paused, n, now)
    requires Woken(s.threads, s.paused, n, now)[t].state.Dormant? && Woken(s.threads, s.paused, n, now)[t].duration > 0
    ensures InTimers(s.paused[n..], t)
  {
    WokenThreads(s.threads, s.paused, n, now);
    assert !InTimers(s.paused[..n], t) by {
      forall i | 0 <= i < n ensures s.paused[..n][i].tr != t {
        assert Sleeps(s.paused[i], s.threads, s.request);
      }
    }
    assert InTimers(s.paused, t);
    var i :| 0 <= i < |s.paused| && s.paused[i].tr == t;
    assert i >= n by {
      assert s.paused[..n] <= s.paused;
    }
    assert s.paused[n..][i - n].tr == t;
  }

  /** remove_timers keeps the invariant, and leaves a positive time to the next deadline while a timer is left. */
  lemma ExpiredTop(s: Sched, now: nat)
    requires AtTop(s)
    ensures AtTop(Expired(s, now))
    ensures NextDeadline(Expired(s, now), now) >= 0
    ensures NextDeadline(Expired(s, now), now) == 0 <==> Expired(s, now).paused == []
  {
    var n := Due(s.paused, now);
    ExpireRun(s, n, now);
    ExpireTimers(s, n, now);
  }

  /**
    remove_timers moves exactly the entries that are due, in deadline order, to the end of the run queue,
    and keeps the rest in order.
   */
  lemma ExpiredExact(s: Sched, now: nat)
    requires AtTop(s)
    ensures exists n :: 0 <= n <= |s.paused|
              && Expired(s, now).run == s.run + Threads(s.paused[..n]) && Expired(s, now).paused == s.paused[n..]
              && forall i :: 0 <= i < |s.paused| ==> (i < n <==> s.paused[i].request <= now)
  {
    hide Woken, Threads, RunOk, CursorOk, RequestOk;
    DueExact(s.paused, now);
    assert Expired(s, now).paused == s.paused[Due(s.paused, now)..];
  }

  /** Every thread whose deadline has passed is back on the run queue in its old state, with the time it slept. */
  ghost predicate DueWake(s: Sched, s': Sched, now: nat) {
    forall i | 0 <= i < |s.paused| && s.paused[i].request <= now ::
      var e := s.paused[i];
      && e.tr in s'.run && e.tr in s'.threads
      && s'.threads[e.tr] == Thread(e.state, if now >= e.start then now - e.start else 0)
  }

  /** Every other thread is as it was. */
  ghost predicate OthersStay(s: Sched, s': Sched, now: nat) {
    forall t | t in s.threads && !DueThread(s.paused, now, t) ::
      t in s'.threads && s'.threads[t] == s.threads[t] && (t in s'.run <==> t in s.run)
  }

  /** Expiry wakes exactly the threads that are due. */
  lemma ExpiredThreads(s: Sched, now: nat)
    requires AtTop(s)
    ensures DueWake(s, Expired(s, now), now) && OthersStay(s, Expired(s, now), now)
  {
    var n := Due(s.paused, now);
    DueExact(s.paused, now);
    WokenThreads(s.threads, s.paused, n, now);
    DuePrefix(s.paused, n, now);
    hide Woken, RunOk, CursorOk, RequestOk, Due, DueThread, InTimers, Threads, Sleeps, TimersOrdered;
  }

  /** The entries at the front that are due, as threads. */
  lemma DuePrefix(paused: seq<Paused>, n: nat, now: nat)
    requires n <= |paused| && forall i :: 0 <= i < n ==> paused[i].request <= now
    ensures forall i :: 0 <= i < n ==> paused[i].tr in Threads(paused[..n])
    ensures forall t :: t in Threads(paused[..n]) || InTimers(paused[..n], t) ==> DueThread(paused, now, t)
  {
    var woken := Threads(paused[..n]);
    forall i | 0 <= i < n ensures paused[i].tr in woken {
      assert woken[i] == paused[i].tr;
    }
    forall t | t in woken || InTimers(paused[..n], t) ensures DueThread(paused, now, t) {
      var i :| 0 <= i < n && paused[..n][i].tr == t;
      assert paused[i].tr == t;
    }
  }

  /** The thread has an entry whose deadline has passed. */
  ghost predicate DueThread(paused: seq<Paused>, now: nat, t: Tid) {
    exists i :: 0 <= i < |paused| && paused[i].tr == t && paused[i].request <= now
  }

  /**
    A thread that goes to sleep at `now` for `ms` and returns to the scheduler is off the run queue, and
    expiry at a later time puts it back if and only if `now + ms` has come; it then has slept since `now`.
   */
  lemma SleepsUntilDeadline(s: Sched, ms: nat, now: nat, later: nat)
    requires Inv(s) && s.current.Some? && IsRunning(s.threads, s.current.value) && ms > 0
    requires s.request != Some((s.current.value, Dormant))
    ensures var t, r := s.current.value, Returned(Slept(s, ms, now));
            && t !in r.run && t in r.threads && r.threads[t] == Thread(Dormant, ms)
            && (t in Expired(r, later).run <==> later >= now + ms)
            && t in Expired(r, later).threads
            && Expired(r, later).threads[t] == if later >= now + ms then Thread(Running, later - now) else Thread(Dormant, ms)
  {
    var t, a := s.current.value, Slept(s, ms, now);
    var r := Returned(a);
    var p := Due(s.paused, now + ms);
    SleptInv(s, ms, now);
    ReturnedTop(a);
    TopSeparated(r);
    assert t in s.run;
    WithoutDistinct(s.run, t);
    assert r.paused[p] == Paused(t, Running, now + ms, now);
    ExpiredThreads(r, later);
    hide Expired, Inv, Due, InsertAt, Without;
    assert DueThread(r.paused, later, t) <==> later >= now + ms by {
      OnlyTimer(r, p, later);
    }
  }

  lemma OnlyTimer(s: Sched, p: nat, now: nat)
    requires AtTop(s) && p < |s.paused|
    ensures DueThread(s.paused, now, s.paused[p].tr) <==> s.paused[p].request <= now
  {
    hide RunOk, CursorOk, RequestOk;
    if i :| 0 <= i < |s.paused| && s.paused[i].tr == s.paused[p].tr && s.paused[i].request <= now {
      assert i == p;
    }
  }

  // ---------- The cursor after the running thread has left ----------

  /**
    The thread at `i` was dispatched, which moved the cursor to the next one, and then leaves the queue.
    The thread that was next is still next, if and only if the one that left was not last in the queue or
    the wrapped cursor happens to fall on the front.
   */
  lemma NextStaysNextIff(run: seq<Tid>, i: nat)
    requires NoDup(run) && i < |run| && |run| > 1
    ensures var rest := Without(run, run[i]);
            && |rest| == |run| - 1
            && (rest[CursorBack((i + 1) % |run|, |rest|)] == run[(i + 1) % |run|] <==>
                 i + 1 < |run| || UINT_MAX % |rest| == 0)
  {
    WithoutIsRemoveAt(run, i);
    hide Without;
    var n := |run| - 1;
    if i + 1 < |run| {
      SmallMod(i + 1, |run|);
      SmallMod(i, n);
      hide UINT_MAX;
    } else {
      SelfMod(|run|);
      WrappedCursor(run);
    }
  }

  lemma SmallMod(a: nat, n: nat)
    requires a < n
    ensures a % n == a
  {
  }

  lemma SelfMod(n: nat)
    requires n > 0
    ensures n % n == 0
  {
  }

  lemma WrappedCursor(run: seq<Tid>)
    requires NoDup(run) && |run| > 1
    ensures RemoveAt(run, |run| - 1)[CursorBack(0, |run| - 1)] == run[0] <==> UINT_MAX % (|run| - 1) == 0
  {
    var p := CursorBack(0, |run| - 1);
    assert RemoveAt(run, |run| - 1)[p] == run[p];
  }

  /** Of three threads the last one leaves after its turn: the second runs next, and the first is passed over. */
  lemma CursorPassesOver(a: Tid, b: Tid, c: Tid)
    requires a != b && b != c && a != c
    ensures var rest := Without([a, b, c], c); |rest| == 2 && rest[CursorBack(0, 2)] == b
  {
    WithoutIsRemoveAt([a, b, c], 2);
    assert RemoveAt([a, b, c], 2) == [a, b];
  }

  // ---------- Selection and fairness ----------

  /** What the selection loop dispatches: the head of the fast ring, or an entry of the run queue. */
  datatype Dispatch = Fast | Normal(index: nat)

  /** The variables that the selection depends on. */
  datatype Chooser = Chooser(flip: bool, position: nat)

  /** One pass of the selection loop over a non-empty run queue of `k` threads; `busy`: the fast ring is not empty. */
  function Choose(c: Chooser, k: nat, busy: bool): (Dispatch, Chooser)
    requires c.position < k
  {
    if !c.flip && busy then (Fast, Chooser(true, c.position))
    else (Normal(c.position), Chooser(false, (c.position + 1) % k))
  }

  /** The n-th dispatch from now, and the chooser before it. */
  function ChooserAt(c: Chooser, k: nat, busy: seq<bool>, n: nat): (d: Chooser)
    requires c.position < k && n <= |busy|
    ensures d.position < k
  {
    if n == 0 then c else Choose(ChooserAt(c, k, busy, n - 1), k, busy[n - 1]).1
  }

  function DispatchAt(c: Chooser, k: nat, busy: seq<bool>, n: nat): Dispatch
    requires c.position < k && n < |busy|
  {
    Choose(ChooserAt(c, k, busy, n), k, busy[n]).0
  }

  /** How many normal dispatches lie before thread `i` gets its turn. */
  function Ahead(position: nat, i: nat, k: nat): nat
    requires position < k && i < k
  {
    if i >= position then i - position else i + k - position
  }

  lemma AheadShrinks(position: nat, i: nat, k: nat)
    requires position < k && i < k && i != position
    ensures (position + 1) % k < k && Ahead((position + 1) % k, i, k) == Ahead(position, i, k) - 1
  {
    if position + 1 == k {
      assert (position + 1) % k == 0;
    } else {
      assert (position + 1) % k == position + 1;
    }
  }

  /** From dispatch `m` on, thread `i` runs within two dispatches for each thread ahead of it, and its own two. */
  lemma {:induction false} RunsSoon(c: Chooser, k: nat, busy: seq<bool>, i: nat, m: nat) returns (n: nat)
    requires c.position < k && i < k && m <= |busy|
    requires m + 2 * (Ahead(ChooserAt(c, k, busy, m).position, i, k) + 1) <= |busy|
    ensures n < |busy| && DispatchAt(c, k, busy, n) == Normal(i)
    decreases |busy| - m
  {
    var d := ChooserAt(c, k, busy, m);
    if !d.flip && busy[m] {
      assert ChooserAt(c, k, busy, m + 1) == Chooser(true, d.position);
      if i == d.position {
        n := m + 1;
      } else {
        AheadShrinks(d.position, i, k);
        n := RunsSoon(c, k, busy, i, m + 2);
      }
    } else if i == d.position {
      n := m;
    } else {
      AheadShrinks(d.position, i, k);
      n := RunsSoon(c, k, busy, i, m + 1);
    }
  }

  /**
    With k queued threads and an unchanged queue, every thread runs in any 2k consecutive dispatches,
    however busy the fast ring is.
   */
  lemma EveryThreadRuns(c: Chooser, k: nat, busy: seq<bool>, i: nat)
    requires c.position < k && i < k && |busy| == 2 * k
    ensures exists n :: 0 <= n < 2 * k && DispatchAt(c, k, busy, n) == Normal(i)
  {
    var n := RunsSoon(c, k, busy, i, 0);
  }

  /** With the flip clear a ring that is not empty comes first, and a ring that stays busy gets at least every second dispatch. */
  lemma BusyRingEverySecond(c: Chooser, k: nat, busy: seq<bool>, n: nat)
    requires c.position < k && n < |busy| && busy[n]
    ensures !ChooserAt(c, k, busy, n).flip ==> DispatchAt(c, k, busy, n) == Fast
    ensures n + 1 < |busy| && busy[n + 1] ==> DispatchAt(c, k, busy, n) == Fast || DispatchAt(c, k, busy, n + 1) == Fast
  {
  }

  /** And never two in a row while a thread is queued. */
  lemma NoTwoFast(c: Chooser, k: nat, busy: seq<bool>, n: nat)
    requires c.position < k && n + 1 < |busy|
    ensures DispatchAt(c, k, busy, n) == Fast ==> DispatchAt(c, k, busy, n + 1) != Fast
  {
  }
}
