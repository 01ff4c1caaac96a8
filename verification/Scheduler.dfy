/**
  The scheduler of one CPU over its queue arrays: kernel/src/scheduler.c and the state changes of
  kernel/src/threads.c. Regions under sched_lock are single steps.
 */
module Scheduler {
  import opened Bits
  import opened Seqs
  import opened SchedulerState

  const MAX_FAST: nat := 32

  // ---------- Shifting a queue array in place ----------

  /** Closes the gap at `pos`. */
  method CloseGap<T>(a: array<T>, count: nat, pos: nat)
    requires pos < count <= a.Length
    modifies a
    ensures a[..count - 1] == RemoveAt(old(a[..count]), pos)
  {
    var i := pos;
    while i < count - 1
      invariant pos <= i <= count - 1
      invariant forall j :: 0 <= j < pos ==> a[j] == old(a[j])
      invariant forall j :: pos <= j < i ==> a[j] == old(a[j + 1])
      invariant forall j :: i <= j < count ==> a[j] == old(a[j])
    {
      a[i] := a[i + 1];
      i := i + 1;
    }
  }

  /** Moves everything from `pos` up by one and writes `x` there. */
  method OpenGap<T>(a: array<T>, count: nat, pos: nat, x: T)
    requires pos <= count < a.Length
    modifies a
    ensures a[..count + 1] == InsertAt(old(a[..count]), pos, x)
  {
    var i := count;
    while i > pos
      invariant pos <= i <= count
      invariant forall j :: 0 <= j < i ==> a[j] == old(a[j])
      invariant forall j :: i < j <= count ==> a[j] == old(a[j - 1])
    {
      a[i] := a[i - 1];
      i := i - 1;
    }
    a[pos] := x;
  }

  /** Moves everything below `pos` up by one and writes `x` at the front. */
  method MoveToFront<T>(a: array<T>, count: nat, pos: nat, x: T)
    requires pos < count <= a.Length
    modifies a
    ensures a[..count] == [x] + RemoveAt(old(a[..count]), pos)
  {
    var i := pos;
    while i > 0
      invariant 0 <= i <= pos
      invariant forall j :: 0 <= j < i ==> a[j] == old(a[j])
      invariant forall j :: i < j <= pos ==> a[j] == old(a[j - 1])
      invariant forall j :: pos < j < count ==> a[j] == old(a[j])
    {
      a[i] := a[i - 1];
      i := i - 1;
    }
    a[0] := x;
  }

  /** Moves the entries from `n` on to the front. */
  method DropFront<T>(a: array<T>, count: nat, n: nat)
    requires n <= count <= a.Length
    modifies a
    ensures a[..count - n] == old(a[..count])[n..]
  {
    var i := 0;
    while i < count - n
      invariant 0 <= i <= count - n
      invariant forall j :: 0 <= j < i ==> a[j] == old(a[j + n])
      invariant forall j :: i <= j < count ==> a[j] == old(a[j])
    {
      a[i] := a[i + n];
      i := i + 1;
    }
  }

  /** The entry of `t` is at the front with an expired deadline; the others follow as they were. */
  ghost predicate Expedited(was: seq<Paused>, now: seq<Paused>, t: Tid) {
    && |now| == |was| > 0
    && exists i | 0 <= i < |was| :: was[i].tr == t && now[0] == was[i].(request := 0) && now[1..] == was[..i] + was[i + 1..]
  }

  /** The part of a ring from `start` up to `stop`. */
  function Ring(a: seq<Tid>, start: nat, stop: nat): seq<Tid>
    requires start < |a| && stop < |a|
  {
    if start <= stop then a[start..stop] else a[start..] + a[..stop]
  }

  class Cpu {
    const run: array<Tid>
    var runCount: nat
    const pause: array<Paused>
    var pauseCount: nat
    var position: nat
    var threads: map<Tid, Thread>
    var current: Option<Tid>
    var request: Option<(Tid, TState)>
    const fast: array<Tid>
    var fastStart: nat
    var fastStop: nat
    var flip: bool

    ghost predicate Shaped()
      reads this
    {
      && run.Length == pause.Length == SCHED_SIZE && runCount <= SCHED_SIZE && pauseCount <= SCHED_SIZE
      && run as object != pause && run as object != fast && pause as object != fast
      && |threads| <= SCHED_SIZE && fast.Length == MAX_FAST && fastStart < MAX_FAST && fastStop < MAX_FAST
    }

    ghost function Model(): Sched
      reads this, run, pause
      requires Shaped()
    {
      Sched(run[..runCount], pause[..pauseCount], position, threads, current, request)
    }

    ghost predicate Valid()
      reads this, run, pause
    {
      Shaped() && Inv(Model())
    }

    /** load_scheduler, with no thread queued. */
    constructor (tids: set<Tid>)
      requires |tids| <= SCHED_SIZE
      ensures Valid() && AtTop(Model()) && threads.Keys == tids && fresh(run) && fresh(pause) && fresh(fast)
      ensures FastRing() == []
    {
      run := new Tid[SCHED_SIZE](_ => 0);
      pause := new Paused[SCHED_SIZE](_ => Paused(0, Suspended, 0, 0));
      fast := new Tid[MAX_FAST](_ => 0);
      runCount, pauseCount, position, fastStart, fastStop, flip := 0, 0, 0, 0, 0, false;
      threads := map t | t in tids :: Thread(Suspended, 0);
      current, request := None, None;
      new;
      assert threads.Keys == tids;
    }

    /** queue: appends to the run queue, or fails when it is full. */
    method SubQueue(t: Tid) returns (rc: int)
      requires Shaped()
      modifies this`runCount, run
      ensures Shaped() && (rc == -1 <==> old(runCount) == SCHED_SIZE) && (rc == 0 || rc == -1)
      ensures Model() == if rc == 0 then old(Model()).(run := old(Model()).run + [t]) else old(Model())
    {
      if runCount == SCHED_SIZE {
        return -1;
      }
      run[runCount] := t;
      runCount := runCount + 1;
      return 0;
    }

    /** dequeue. */
    method SubDequeue(t: Tid)
      requires Shaped() && t in run[..runCount]
      modifies this`runCount, this`position, run
      ensures Shaped()
      ensures var rest := Without(old(Model()).run, t);
        Model() == old(Model()).(run := rest, position := CursorBack(old(position), |rest|))
    {
      hide RemoveAt, Without;
      ghost var q := run[..runCount];
      var pos := RunIndex(t);
      WithoutIsRemoveAt(q, pos);
      CloseGap(run, runCount, pos);
      runCount := runCount - 1;
      position := if runCount == 0 then 0 else (if position == 0 then UINT_MAX else position - 1) % runCount;
    }

    /** The search of dequeue. */
    method RunIndex(t: Tid) returns (pos: nat)
      requires Shaped() && t in run[..runCount]
      ensures pos < runCount && run[..runCount][pos] == t && t !in run[..runCount][..pos]
    {
      ghost var q := run[..runCount];
      pos := 0;
      while run[pos] != t
        invariant pos < runCount && t !in q[..pos]
        decreases runCount - pos
      {
        pos := pos + 1;
      }
    }

    /** restart: an expired deadline at the front of the pause queue. */
    method Restart(t: Tid)
      requires Valid() && InTimers(pause[..pauseCount], t)
      modifies pause
      ensures Valid() && pauseCount > 0 && pause[0].tr == t && pause[0].request == 0
      ensures exists i :: 0 <= i < |old(Model()).paused| && Model() == old(Model()).(paused := Restarted(old(Model()).paused, i))
      ensures Expedited(old(pause[..pauseCount]), pause[..pauseCount], t)
    {
      hide RunOk, TimersOk, CursorOk, RemoveAt, Expedited, Restarted;
      ghost var q := pause[..pauseCount];
      var pos := TimerOf(t);
      RestartedFront(q, pos);
      RestartKeeps(q, threads, request, pos);
      MoveToFront(pause, pauseCount, pos, pause[pos].(request := 0));
      assert pause[..pauseCount][0] == pause[0];
    }

    /** The search of restart for the thread's timer. */
    method TimerOf(t: Tid) returns (pos: nat)
      requires Shaped() && InTimers(pause[..pauseCount], t)
      ensures pos < pauseCount && pause[pos].tr == t
    {
      ghost var k :| 0 <= k < pauseCount && pause[..pauseCount][k].tr == t;
      pos := 0;
      while pause[pos].tr != t
        invariant pos <= k
        decreases k - pos
      {
        pos := pos + 1;
      }
    }

    /** set_thread_state for a thread other than the current one; no thread is made dormant from outside. */
    method SetThreadState(t: Tid, st: TState)
      requires Valid() && t in threads && current != Some(t) && !st.Dormant?
      requires threads[t].state.Dormant? && threads[t].duration > 0 ==> st.Running?
      modifies this`runCount, this`position, this`threads, run, pause
      ensures Valid()
      ensures old(threads)[t].state == st ==> Model() == old(Model())
      ensures old(threads)[t].state != st && !(old(threads)[t].state.Dormant? && old(threads)[t].duration > 0) ==>
        Model() == Moved(old(Model()), t, st)
      ensures !(old(threads)[t].state.Dormant? && old(threads)[t].duration > 0) ==>
        && threads == old(threads)[t := old(threads)[t].(state := st)] && pause[..pauseCount] == old(pause[..pauseCount])
      ensures st.Running? && !old(threads)[t].state.Running? && !(old(threads)[t].state.Dormant? && old(threads)[t].duration > 0)
        ==> run[..runCount] == old(run[..runCount]) + [t]
      ensures old(threads)[t].state.Dormant? && old(threads)[t].duration > 0 ==>
        && run[..runCount] == old(run[..runCount]) && threads == old(threads)
        && Expedited(old(pause[..pauseCount]), pause[..pauseCount], t)
    {
      hide RunOk, TimersOk, CursorOk, InTimers;
      if threads[t].state == st {
        return;
      }
      if threads[t].state.Dormant? && threads[t].duration != 0 {
        SleeperHasTimer(Model(), t);
        Restart(t);
        return;
      }
      MovedInv(Model(), t, st);
      MoveRoom(Model(), t);
      ghost var s := Model();
      if threads[t].state.Running? {
        SubDequeue(t);
      }
      threads := threads[t := threads[t].(state := st)];
      if st.Running? {
        var rc := SubQueue(t);
      }
    }

    /** set_thread_state of the current thread on itself: the scheduler is asked to make the change. */
    method RequestState(st: TState)
      requires Valid() && current.Some? && IsRunning(threads, current.value) && !st.Running?
      requires request != Some((current.value, Dormant)) && (st.Dormant? ==> threads[current.value].duration == 0)
      modifies this`request
      ensures Valid() && Model() == old(Model()).(request := Some((current.value, st)))
    {
      hide RunOk, TimersOk, CursorOk;
      RequestInv(Model(), st);
      request := Some((current.value, st));
    }

    /** go_dormant up to its yield; `waiting` tells whether messages or pulses are waiting. */
    method GoDormant(timeout: nat, waiting: bool, now: nat)
      requires Valid() && current.Some? && IsRunning(threads, current.value)
      requires request != Some((current.value, Dormant))
      modifies this`pauseCount, this`threads, this`request, pause
      ensures Valid() && run[..runCount] == old(run[..runCount])
      ensures waiting ==> Model() == old(Model())
      ensures !waiting ==> request == Some((current.value, Dormant))
      ensures !waiting ==> threads == old(threads)[current.value := Thread(Running, timeout)]
      ensures !waiting && timeout > 0 ==> Model() == Slept(old(Model()), timeout, now)
      ensures !waiting && timeout > 0 ==> Paused(current.value, Running, now + timeout, now) in pause[..pauseCount]
      ensures !waiting && timeout == 0 ==> pause[..pauseCount] == old(pause[..pauseCount])
    {
      hide RunOk, TimersOk, CursorOk, InsertAt, Due;
      if waiting {
        return;
      }
      var t := current.value;
      if timeout != 0 {
        PauseCurrent(timeout, now);
      } else {
        ClearDuration(Model(), t);
        threads := threads[t := threads[t].(duration := 0)];
        RequestState(Dormant);
      }
    }

    /** The search of pause(): past every deadline that is not later. */
    method TimerPosition(deadline: nat) returns (pos: nat)
      requires Valid()
      ensures pos == Due(Model().paused, deadline)
    {
      hide Inv;
      ghost var paused := Model().paused;
      pos := 0;
      while pos < pauseCount && pause[pos].request <= deadline
        invariant pos <= pauseCount
        invariant forall i :: 0 <= i < pos ==> paused[i].request <= deadline
      {
        pos := pos + 1;
      }
      DueUnique(paused, deadline, pos);
    }

    /** pause of the current thread, whose state change the scheduler is then asked to make. */
    method PauseCurrent(ms: nat, now: nat)
      requires Valid() && current.Some? && IsRunning(threads, current.value)
      requires request != Some((current.value, Dormant)) && ms > 0
      modifies this`pauseCount, this`threads, this`request, pause
      ensures Valid() && Model() == Slept(old(Model()), ms, now)
      ensures var paused := Paused(current.value, Running, now + ms, now);
        forall e :: e in pause[..pauseCount] <==> e in old(pause[..pauseCount]) || e == paused
      ensures threads == old(threads)[current.value := Thread(Running, ms)]
    {
      hide Inv, InsertAt, Slept, Returned;
      ghost var s := Model();
      var t := current.value;
      SleptEntries(s, ms, now);
      SleptInv(s, ms, now);
      SleepRoom(s, t);
      var pos := TimerPosition(ms + now);
      hide Due;
      InsertTimer(pos, Paused(t, threads[t].state, ms + now, now));
      request := Some((t, Dormant));
      threads := threads[t := threads[t].(duration := ms)];
    }

    /** The insertion of pause(). */
    method InsertTimer(pos: nat, e: Paused)
      requires Shaped() && pos <= pauseCount < SCHED_SIZE
      modifies this`pauseCount, pause
      ensures Shaped() && Model() == old(Model()).(paused := InsertAt(old(Model()).paused, pos, e))
    {
      hide InsertAt;
      OpenGap(pause, pauseCount, pos, e);
      pauseCount := pauseCount + 1;
    }

    /** exec_thread marks the thread that the scheduler has selected. */
    method Dispatch(t: Tid)
      requires Valid() && AtTop(Model())
      modifies this`current
      ensures Valid() && Model() == old(Model()).(current := Some(t))
    {
      hide RunOk, TimersOk, CursorOk;
      current := Some(t);
    }

    /** The end of go_dormant, when the thread runs again: it collects the time that it slept. */
    method CollectDuration() returns (d: nat)
      requires Valid() && current.Some? && IsRunning(threads, current.value)
      requires request != Some((current.value, Dormant))
      modifies this`threads
      ensures Valid() && d == old(threads)[current.value].duration
      ensures var was := old(threads);
        Model() == old(Model()).(threads := was[current.value := was[current.value].(duration := 0)])
    {
      hide RunOk, TimersOk, CursorOk;
      ClearDuration(Model(), current.value);
      d := threads[current.value].duration;
      threads := threads[current.value := threads[current.value].(duration := 0)];
    }

    /** The running thread returns to the scheduler; remove_last honours its request. */
    method Return()
      requires Valid()
      modifies this`runCount, this`position, this`threads, this`current, this`request, run
      ensures Valid() && AtTop(Model()) && Model() == Returned(old(Model()))
      ensures current.None? && request.None?
      ensures old(request).None? ==> run[..runCount] == old(run[..runCount]) && threads == old(threads)
      ensures old(request).Some? ==>
        var (t, st) := old(request).value;
        && threads == old(threads)[t := old(threads)[t].(state := st)] && t !in run[..runCount]
        && run[..runCount] == Without(old(run[..runCount]), t)
    {
      hide TimersOk, CursorOk;
      ReturnedTop(Model());
      current := None;
      if request.Some? {
        var (t, st) := request.value;
        request := None;
        assert t in run[..runCount];
        WithoutDistinct(run[..runCount], t);
        hide RunOk, Without;
        SubDequeue(t);
        threads := threads[t := threads[t].(state := st)];
      }
    }

    /** remove_timers: wakes the due threads and returns the time to the next deadline, or 0. */
    method RemoveTimers(now: nat) returns (wait: int)
      requires Valid() && AtTop(Model())
      modifies this`runCount, this`pauseCount, this`threads, run, pause
      ensures Valid() && AtTop(Model()) && Model() == Expired(old(Model()), now)
      ensures DueWake(old(Model()), Model(), now) && OthersStay(old(Model()), Model(), now)
      ensures wait == NextDeadline(Model(), now) && wait >= 0 && (wait == 0 <==> Model().paused == [])
      ensures pauseCount > 0 ==> wait == pause[0].request - now
    {
      hide Inv, Expired, Due, Woken, Threads, DueWake, OthersStay, DueThread;
      ghost var s := Model();
      ExpiredTop(s, now);
      ExpiredThreads(s, now);
      var n := WakeDue(now);
      ExpiredIs(s, now, n);
      hide AtTop;
      DropTimers(n);
      assert Model() == Expired(s, now);
      wait := if pauseCount == 0 then 0 else pause[0].request - now;
    }

    /** The second loop of remove_timers: the entries that are left move to the front. */
    method DropTimers(n: nat)
      requires Shaped() && n <= pauseCount
      modifies this`pauseCount, pause
      ensures Shaped() && Model() == old(Model()).(paused := old(Model()).paused[n..])
    {
      DropFront(pause, pauseCount, n);
      pauseCount := pauseCount - n;
    }

    /** The first loop of remove_timers: every due thread joins the run queue. */
    method WakeDue(now: nat) returns (n: nat)
      requires Valid() && AtTop(Model())
      modifies this`runCount, this`threads, run
      ensures Shaped() && n <= pauseCount
      ensures var s := old(Model());
        Model() == s.(run := s.run + Threads(s.paused[..n]), threads := Woken(s.threads, s.paused, n, now))
      ensures var paused := old(Model()).paused;
        (forall i :: 0 <= i < n ==> paused[i].request <= now) && (n < |paused| ==> paused[n].request > now)
    {
      hide Inv, Due, Woken, Threads;
      ghost var s := Model();
      n := 0;
      WokenNone(s, now);
      while n < pauseCount && pause[n].request <= now
        invariant n <= pauseCount == |s.paused|
        invariant Shaped() && forall i :: 0 <= i < n ==> s.paused[i].request <= now
        invariant Model() == s.(run := s.run + Threads(s.paused[..n]), threads := Woken(s.threads, s.paused, n, now))
        invariant threads.Keys == s.threads.Keys
      {
        WakeRoom(s, n, now);
        WokenNext(s, n, now);
        assert pause[..pauseCount][n] == s.paused[n];
        Wake(pause[n], now);
        n := n + 1;
      }
      assert n < pauseCount ==> pause[..pauseCount][n] == s.paused[n];
    }

    /** One round of it. */
    method Wake(e: Paused, now: nat)
      requires Shaped() && runCount < SCHED_SIZE && e.tr in threads
      modifies this`runCount, this`threads, run
      ensures Shaped() && threads.Keys == old(threads).Keys
      ensures var th := Thread(e.state, if now >= e.start then now - e.start else 0);
        Model() == old(Model()).(run := old(Model()).run + [e.tr], threads := old(threads)[e.tr := th])
    {
      threads := threads[e.tr := Thread(e.state, if now >= e.start then now - e.start else 0)];
      assert threads.Keys == old(threads).Keys;
      var rc := SubQueue(e.tr);
    }

    // ---------- The fast ring and the selection ----------

    /** The threads in the ring, oldest first. */
    ghost function FastRing(): seq<Tid>
      reads this, fast
      requires fast.Length == MAX_FAST && fastStart < MAX_FAST && fastStop < MAX_FAST
    {
      Ring(fast[..], fastStart, fastStop)
    }

    /** fast_queue, for a ring with room. */
    method FastQueue(t: Tid)
      requires Valid() && |FastRing()| < MAX_FAST - 1
      modifies this`fastStop, fast
      ensures Valid() && FastRing() == old(FastRing()) + [t] && Model() == old(Model())
    {
      hide Inv, Ring;
      RingPush(fast[..], fastStart, fastStop, t);
      fast[fastStop] := t;
      assert fast[..] == old(fast[..])[fastStop := t];
      fastStop := (fastStop + 1) % MAX_FAST;
    }

    /** fast_dequeue of the thread at the head of the ring. */
    method FastDequeue()
      requires Valid() && FastRing() != []
      modifies this`fastStart
      ensures Valid() && FastRing() == old(FastRing())[1..] && Model() == old(Model())
    {
      hide RunOk, TimersOk, CursorOk, RequestOk;
      fastStart := (fastStart + 1) % MAX_FAST;
    }

    /** One pass of the selection of `scheduler`: the thread to run, or None for the idle thread. */
    method Select() returns (t: Option<Tid>)
      requires Valid() && AtTop(Model())
      modifies this`position, this`flip
      ensures Valid() && AtTop(Model()) && Model().run == old(Model()).run && Model().paused == old(Model()).paused
      ensures threads == old(threads)
      ensures t.None? <==> runCount == 0 && (FastRing() == [] || old(flip))
      ensures !old(flip) && FastRing() != [] ==> t == Some(FastRing()[0])
      ensures old(flip) || FastRing() == [] ==> !flip
      ensures runCount > 0 ==> old(position) < runCount
      ensures runCount > 0 && (old(flip) || FastRing() == []) ==>
        t == Some(run[old(position)]) && position == (old(position) + 1) % runCount
      ensures !old(flip) && FastRing() != [] ==> position == old(position) && (flip <==> runCount > 0)
      ensures runCount > 0 ==>
        var (d, c) := Choose(Chooser(old(flip), old(position)), runCount, FastRing() != []);
        && flip == c.flip && position == c.position
        && t == (if d.Fast? then Some(FastRing()[0]) else Some(run[d.index]))
      ensures runCount == 0 ==> !flip
    {
      hide RunOk, TimersOk;
      if !flip {
        if fastStart != fastStop {
          t := Some(fast[fastStart]);
          if runCount != 0 {
            flip := true;
          }
          return;
        }
      }
      flip := false;
      if runCount == 0 {
        t := None;
      } else {
        t := Some(run[position]);
        position := (position + 1) % runCount;
      }
    }
  }

  // ---------- A sleep from its start to its end ----------

  /**
    go_dormant for `ms`, the return to the scheduler, and its expiry of timers at a later time: the thread
    is back on the run queue if and only if its deadline has come, and has then slept since `now`.
   */
  method SleepAndExpire(cpu: Cpu, ms: nat, now: nat, later: nat)
    requires cpu.Valid() && cpu.current.Some? && IsRunning(cpu.threads, cpu.current.value)
    requires cpu.request != Some((cpu.current.value, Dormant)) && ms > 0
    modifies cpu`runCount, cpu`pauseCount, cpu`position, cpu`threads, cpu`current, cpu`request, cpu.run, cpu.pause
    ensures cpu.Valid() && AtTop(cpu.Model())
    ensures var t := old(cpu.current.value);
      && (t in cpu.run[..cpu.runCount] <==> later >= now + ms) && t in cpu.threads
      && cpu.threads[t] == if later >= now + ms then Thread(Running, later - now) else Thread(Dormant, ms)
  {
    SleepsUntilDeadline(cpu.Model(), ms, now, later);
    hide Inv, AtTop, Slept, Returned, Expired, DueWake, OthersStay;
    cpu.GoDormant(ms, false, now);
    cpu.Return();
    var wait := cpu.RemoveTimers(later);
  }

  /** A thread that has no timeout sleeps until set_thread_state ends its sleep, whatever time expires. */
  method SleepUntilWoken(cpu: Cpu, now: nat, later: nat)
    requires cpu.Valid() && cpu.current.Some? && IsRunning(cpu.threads, cpu.current.value)
    requires cpu.request != Some((cpu.current.value, Dormant))
    modifies cpu`runCount, cpu`pauseCount, cpu`position, cpu`threads, cpu`current, cpu`request, cpu.run, cpu.pause
    ensures cpu.Valid() && AtTop(cpu.Model())
    ensures var t := old(cpu.current.value);
      t !in cpu.run[..cpu.runCount] && t in cpu.threads && cpu.threads[t] == Thread(Dormant, 0)
  {
    cpu.GoDormant(0, false, now);
    cpu.Return();
    ghost var t := old(cpu.current.value);
    NoTimer(cpu.Model(), t);
    assert !DueThread(cpu.pause[..cpu.pauseCount], later, t);
    hide Inv, DueWake;
    var wait := cpu.RemoveTimers(later);
  }

  /** A sleeper that is told to run is back on the run queue after the next expiry, whatever the time. */
  method WakeEarly(cpu: Cpu, t: Tid, now: nat)
    requires cpu.Valid() && AtTop(cpu.Model()) && t in cpu.threads
    requires cpu.threads[t].state.Dormant? && cpu.threads[t].duration > 0
    modifies cpu`runCount, cpu`pauseCount, cpu`position, cpu`threads, cpu.run, cpu.pause
    ensures cpu.Valid() && AtTop(cpu.Model()) && t in cpu.run[..cpu.runCount] && t in cpu.threads
    ensures exists e | e in old(cpu.pause[..cpu.pauseCount]) && e.tr == t ::
      cpu.threads[t] == Thread(Running, if now >= e.start then now - e.start else 0)
  {
    hide Inv, OthersStay, Moved, Expired, Due;
    ghost var was := cpu.pause[..cpu.pauseCount];
    cpu.SetThreadState(t, Running);
    ghost var s := cpu.Model();
    FrontSleeps(s);
    var wait := cpu.RemoveTimers(now);
    ghost var i :| 0 <= i < |was| && was[i].tr == t && s.paused[0] == was[i].(request := 0);
    assert was[i] in was;
  }

  // ---------- Facts for the proofs of the methods ----------

  lemma RingPush(a: seq<Tid>, start: nat, stop: nat, t: Tid)
    requires |a| == MAX_FAST && start < MAX_FAST && stop < MAX_FAST && |Ring(a, start, stop)| < MAX_FAST - 1
    ensures Ring(a[stop := t], start, (stop + 1) % MAX_FAST) == Ring(a, start, stop) + [t]
  {
    if stop + 1 == MAX_FAST {
      RingPushLast(a, start, stop, t);
    } else {
      RingPushInner(a, start, stop, t);
    }
  }

  lemma RingPushLast(a: seq<Tid>, start: nat, stop: nat, t: Tid)
    requires |a| == stop + 1 && 0 < start <= stop
    ensures Ring(a[stop := t], start, 0) == Ring(a, start, stop) + [t]
  {
    var b := a[stop := t];
    SliceWrite(a, start, stop, t);
    assert b[start..] == b[start..stop + 1] && b[..0] == [];
  }

  lemma RingPushInner(a: seq<Tid>, start: nat, stop: nat, t: Tid)
    requires start < |a| && stop + 1 < |a| && stop + 1 != start
    ensures Ring(a[stop := t], start, stop + 1) == Ring(a, start, stop) + [t]
  {
    var b := a[stop := t];
    if start <= stop {
      SliceWrite(a, start, stop, t);
    } else {
      SliceWrite(a, 0, stop, t);
      assert b[start..] == a[start..];
      assert a[..stop] == a[0..stop] && b[..stop + 1] == b[0..stop + 1];
      assert a[start..] + a[..stop] + [t] == a[start..] + (a[..stop] + [t]);
    }
  }

  lemma SliceWrite(a: seq<Tid>, start: nat, stop: nat, t: Tid)
    requires start <= stop < |a|
    ensures a[stop := t][start..stop + 1] == a[start..stop] + [t]
  {
  }

  lemma FrontSleeps(s: Sched)
    requires Inv(s) && s.paused != []
    ensures s.paused[0].state.Running?
  {
    assert Sleeps(s.paused[0], s.threads, s.request);
  }

  lemma RestartedFront(paused: seq<Paused>, i: nat)
    requires i < |paused|
    ensures Restarted(paused, i) == [paused[i].(request := 0)] + RemoveAt(paused, i)
    ensures Expedited(paused, Restarted(paused, i), paused[i].tr)
  {
    assert Restarted(paused, i)[1..] == paused[..i] + paused[i + 1..];
  }

  /** pause puts the entry into the queue next to those that are there. */
  lemma SleptEntries(s: Sched, ms: nat, now: nat)
    requires s.current.Some? && IsRunning(s.threads, s.current.value)
    ensures Slept(s, ms, now) == s.(paused := Slept(s, ms, now).paused, threads := Slept(s, ms, now).threads,
                                    request := Some((s.current.value, Dormant)))
    ensures Slept(s, ms, now).threads == s.threads[s.current.value := Thread(Running, ms)]
    ensures Slept(s, ms, now).paused
      == InsertAt(s.paused, Due(s.paused, now + ms), Paused(s.current.value, Running, now + ms, now))
    ensures forall e :: e in Slept(s, ms, now).paused <==> e in s.paused || e == Paused(s.current.value, Running, now + ms, now)
  {
    InsertContents(s.paused, Due(s.paused, now + ms), Paused(s.current.value, Running, now + ms, now));
    hide Due, InsertAt;
  }

  lemma SleeperHasTimer(s: Sched, t: Tid)
    requires Inv(s) && t in s.threads && s.threads[t].state.Dormant? && s.threads[t].duration > 0
    ensures InTimers(s.paused, t)
  {
  }

  /** A thread that has to join the run queue finds room in it. */
  lemma MoveRoom(s: Sched, t: Tid)
    requires Inv(s) && t in s.threads
    ensures t in s.run <==> s.threads[t].state.Running?
    ensures t !in s.run ==> |s.run| < |s.threads|
  {
    hide TimersOk, CursorOk, RequestOk;
    if t !in s.run {
      forall u | u in s.run ensures u in s.threads.Keys - {t} {
        assert IsRunning(s.threads, u);
      }
      Pigeonhole(s.run, s.threads.Keys - {t});
    }
  }

  lemma SleepRoom(s: Sched, t: Tid)
    requires Inv(s) && s.current == Some(t) && t in s.threads && s.request != Some((t, Dormant))
    requires s.threads[t].state.Running?
    ensures |s.paused| < |s.threads|
  {
    hide RunOk, CursorOk;
    var l := Threads(s.paused);
    forall u | u in l ensures u in s.threads.Keys - {t} {
      var i :| 0 <= i < |l| && l[i] == u;
      assert Sleeps(s.paused[i], s.threads, s.request);
    }
    Pigeonhole(l, s.threads.Keys - {t});
  }

  lemma ClearDuration(s: Sched, t: Tid)
    requires Inv(s) && s.current == Some(t) && IsRunning(s.threads, t) && s.request != Some((t, Dormant))
    ensures Inv(s.(threads := s.threads[t := s.threads[t].(duration := 0)]))
  {
    assert !InTimers(s.paused, t) by {
      forall i | 0 <= i < |s.paused| ensures s.paused[i].tr != t {
        assert Sleeps(s.paused[i], s.threads, s.request);
      }
    }
    TimersUnaffected(s.paused, s.threads, s.request, t, s.threads[t].(duration := 0));
    DurationIrrelevant(s.run, s.threads, t, 0);
  }

  lemma {:induction false} DueUnique(paused: seq<Paused>, now: nat, n: nat)
    requires n <= |paused| && (forall i :: 0 <= i < n ==> paused[i].request <= now)
    requires n < |paused| ==> paused[n].request > now
    ensures Due(paused, now) == n
  {
    if n > 0 {
      DueUnique(paused[1..], now, n - 1);
    }
  }

  lemma WokenNone(s: Sched, now: nat)
    ensures s == s.(run := s.run + Threads(s.paused[..0]), threads := Woken(s.threads, s.paused, 0, now))
  {
    assert s.run + Threads(s.paused[..0]) == s.run;
  }

  lemma WokenNext(s: Sched, n: nat, now: nat)
    requires n < |s.paused|
    ensures var e := s.paused[n];
            Woken(s.threads, s.paused, n + 1, now)
              == Woken(s.threads, s.paused, n, now)[e.tr := Thread(e.state, if now >= e.start then now - e.start else 0)]
    ensures s.run + Threads(s.paused[..n + 1]) == s.run + Threads(s.paused[..n]) + [s.paused[n].tr]
  {
  }

  lemma ExpiredIs(s: Sched, now: nat, n: nat)
    requires n <= |s.paused| && (forall i :: 0 <= i < n ==> s.paused[i].request <= now)
    requires n < |s.paused| ==> s.paused[n].request > now
    ensures Expired(s, now)
      == s.(run := s.run + Threads(s.paused[..n]), paused := s.paused[n..], threads := Woken(s.threads, s.paused, n, now))
  {
    DueUnique(s.paused, now, n);
  }

  lemma WakeRoom(s: Sched, n: nat, now: nat)
    requires AtTop(s) && n < |s.paused|
    ensures |s.run + Threads(s.paused[..n])| < |s.threads|
    ensures s.paused[n].tr in s.threads
  {
    hide CursorOk, RequestOk;
    ExpireRun(s, n, now);
    WokenThreads(s.threads, s.paused, n, now);
    var t := s.paused[n].tr;
    var l := s.run + Threads(s.paused[..n]);
    assert Sleeps(s.paused[n], s.threads, s.request);
    forall u | u in l ensures u in s.threads.Keys - {t} {
      if u in s.run {
        assert IsRunning(s.threads, u);
      } else {
        var i :| 0 <= i < n && Threads(s.paused[..n])[i] == u;
        assert Sleeps(s.paused[i], s.threads, s.request);
      }
    }
    Pigeonhole(l, s.threads.Keys - {t});
  }
}
