/**
  Open files and device hooks of the device file system (devices/devfs/files.c, devices.c and
  processes.c). The process, file and device hash tables are maps, which is what HashTable shows
  them to be; a file names its device by id.
 */
module DevFs {
  import opened Bits
  import opened Seqs
  import opened DevFsRequests

  const FLAG_OPEN: bv32 := 1
  const FLAG_READ: bv32 := 2
  const FLAG_WRITE: bv32 := 4
  const FLAG_STREAM: bv32 := 8
  const FLAG_SCRIPT: bv32 := 16
  const FLAG_MAP: bv32 := 32
  const FLAG_UNMAP: bv32 := 64

  datatype Status = Ok | Failure | NotFound | Exists | NotSupported | NoMem | InUse | BadFlags

  /** The DEVFSERR_ numbers. */
  function Code(st: Status): int {
    match st
    case Ok => 0
    case Failure => -1
    case NotFound => -2
    case Exists => -4
    case NotSupported => -6
    case NoMem => -9
    case InUse => -16
    case BadFlags => -18
  }

  datatype Hook = Hook(pid: int, fd: int)

  datatype Device = Device(pid: int, port: int, flags: bv32, name: string, hooks: seq<Hook>)

  datatype File = File(device: int, flags: bv32)

  datatype Proc = Proc(lastFd: int, files: map<int, File>)

  datatype Fs = Fs(procs: map<int, Proc>, devices: map<int, Device>, nextId: int)

  predicate Openable(d: Device) { d.flags & FLAG_OPEN != 0 }

  predicate Allows(have: bv32, want: bv32) { have & want == want }

  /** Descriptor `fd` of process `pid` is open on device `id`. */
  predicate OpenOn(s: Fs, pid: int, fd: int, id: int) {
    pid in s.procs && fd in s.procs[pid].files && s.procs[pid].files[fd].device == id
  }

  // ---------- The invariant ----------

  ghost predicate FilesOk(s: Fs) {
    forall pid, fd, id :: OpenOn(s, pid, fd, id) ==>
      && fd >= 0 && id in s.devices && Openable(s.devices[id])
      && Allows(s.devices[id].flags, s.procs[pid].files[fd].flags)
  }

  ghost predicate LastFdFree(s: Fs) {
    forall pid :: pid in s.procs ==> s.procs[pid].lastFd >= 0 && s.procs[pid].lastFd !in s.procs[pid].files
  }

  /** The hooks of an openable device are exactly its open descriptors, each once. */
  ghost predicate HooksExact(s: Fs, id: int)
    requires id in s.devices
  {
    NoDup(s.devices[id].hooks) && forall pid, fd :: Hook(pid, fd) in s.devices[id].hooks <==> OpenOn(s, pid, fd, id)
  }

  ghost predicate NamesOk(s: Fs) {
    && (forall id :: id in s.devices ==> 0 < id < s.nextId)
    && (forall a, b :: a in s.devices && b in s.devices && s.devices[a].name == s.devices[b].name ==> a == b)
  }

  ghost predicate HooksOk(s: Fs) { forall id :: id in s.devices && Openable(s.devices[id]) ==> HooksExact(s, id) }

  ghost predicate Inv(s: Fs) {
    FilesOk(s) && LastFdFree(s) && NamesOk(s) && HooksOk(s) && s.nextId > 0
  }

  // ---------- Steps ----------

  ghost predicate Named(devices: map<int, Device>, name: string, id: int) { id in devices && devices[id].name == name }

  /** find_device_by_name. */
  ghost function ByName(devices: map<int, Device>, name: string): (r: Option<int>)
    ensures r.Some? ==> Named(devices, name, r.value)
    ensures r.None? ==> forall id :: !Named(devices, name, id)
  {
    if id :| Named(devices, name, id) then Some(id) else None
  }

  /** The named device exists, can be opened and has the wanted flags. */
  ghost predicate Accepts(devices: map<int, Device>, name: string, flags: bv32) {
    var dev := ByName(devices, name);
    dev.Some? && Openable(devices[dev.value]) && Allows(devices[dev.value].flags, flags)
  }

  /** The process record, made on the first open of the process. */
  function WithProc(s: Fs, pid: int): Fs {
    if pid in s.procs then s else s.(procs := s.procs[pid := Proc(0, map[])])
  }

  function SetHooks(s: Fs, id: int, hooks: seq<Hook>): Fs
    requires id in s.devices
  {
    s.(devices := s.devices[id := s.devices[id].(hooks := hooks)])
  }

  function SetProc(s: Fs, pid: int, p: Proc): Fs { s.(procs := s.procs[pid := p]) }

  ghost function Above(files: map<int, File>, fd: int): set<int> { set k | k in files && k >= fd }

  /** The first descriptor from `fd` on that is not open. */
  function NextFree(files: map<int, File>, fd: int): (n: int)
    ensures n >= fd && n !in files && forall k :: fd <= k < n ==> k in files
    decreases |Above(files, fd)|
  {
    if fd in files then
      assert Above(files, fd) == Above(files, fd + 1) + {fd};
      NextFree(files, fd + 1)
    else fd
  }

  function OpenFile(s: Fs, pid: int, id: int, flags: bv32): Fs
    requires pid in s.procs && id in s.devices
  {
    var p := s.procs[pid];
    var files := p.files[p.lastFd := File(id, flags)];
    SetProc(SetHooks(s, id, s.devices[id].hooks + [Hook(pid, p.lastFd)]), pid, Proc(NextFree(files, p.lastFd + 1), files))
  }

  function CloseFile(s: Fs, pid: int, fd: int): Fs
    requires pid in s.procs && fd in s.procs[pid].files && s.procs[pid].files[fd].device in s.devices
  {
    var p := s.procs[pid];
    var id := p.files[fd].device;
    SetProc(SetHooks(s, id, Without(s.devices[id].hooks, Hook(pid, fd))), pid, Proc(fd, p.files - {fd}))
  }

  /** The requests that change the tables; the flags say which allocations succeed. */
  datatype Event =
    | Register(pid: int, port: int, flags: bv32, name: string, mem: bool, stored: bool)
    | Deregister(pid: int, id: int)
    | Open(pid: int, name: string, flags: bv32, mem: bool, fileMem: bool)
    | Close(pid: int, fd: int)

  ghost function Next(s: Fs, e: Event): Fs
    requires Inv(s)
  {
    match e
    case Register(pid, port, flags, name, mem, stored) =>
      if ByName(s.devices, name).Some? || !mem then s
      else
        var devices := if stored then s.devices[s.nextId := Device(pid, port, flags, name, [])] else s.devices;
        s.(nextId := s.nextId + 1, devices := devices)
    case Deregister(pid, id) =>
      if id in s.devices && s.devices[id].pid == pid && s.devices[id].hooks == [] then s.(devices := s.devices - {id}) else s
    case Open(pid, name, flags, mem, fileMem) =>
      if pid !in s.procs && !mem then s
      else
        var s1 := WithProc(s, pid);
        var dev := ByName(s.devices, name);
        if dev.None? then s1
        else if !Openable(s.devices[dev.value]) then
          SetHooks(s1, dev.value, s.devices[dev.value].hooks + [Hook(pid, s1.procs[pid].lastFd)])
        else if !Allows(s.devices[dev.value].flags, flags) || !fileMem then s1
        else OpenFile(s1, pid, dev.value, flags)
    case Close(pid, fd) =>
      if pid in s.procs && fd in s.procs[pid].files then CloseFile(s, pid, fd) else s
  }

  ghost function Run(s: Fs, events: seq<Event>): (r: Fs)
    requires Inv(s)
    ensures Inv(r)
    decreases |events|
  {
    if events == [] then s else
      NextInv(s, events[0]);
      Run(Next(s, events[0]), events[1..])
  }

  // ---------- Every step keeps the invariant ----------

  lemma WithProcInv(s: Fs, pid: int)
    requires Inv(s)
    ensures Inv(WithProc(s, pid)) && forall p, fd, id :: OpenOn(WithProc(s, pid), p, fd, id) == OpenOn(s, p, fd, id)
  {
    var s1 := WithProc(s, pid);
    assert forall p, fd, id :: OpenOn(s1, p, fd, id) == OpenOn(s, p, fd, id);
    forall id | id in s1.devices && Openable(s1.devices[id]) ensures HooksExact(s1, id) {
      assert HooksExact(s, id);
    }
  }

  /** A hook on a device that cannot be opened is harmless to the others. */
  lemma LeakInv(s: Fs, id: int, hooks: seq<Hook>)
    requires Inv(s) && id in s.devices && !Openable(s.devices[id])
    ensures Inv(SetHooks(s, id, hooks))
  {
    var s' := SetHooks(s, id, hooks);
    assert forall p, fd, d :: OpenOn(s', p, fd, d) == OpenOn(s, p, fd, d);
    forall d | d in s'.devices && Openable(s'.devices[d]) ensures HooksExact(s', d) {
      assert HooksExact(s, d);
    }
  }

  lemma OpenFileOpens(s: Fs, pid: int, id: int, flags: bv32)
    requires Inv(s) && pid in s.procs && id in s.devices
    ensures forall p, fd, d :: OpenOn(OpenFile(s, pid, id, flags), p, fd, d) <==>
              OpenOn(s, p, fd, d) || (p == pid && fd == s.procs[pid].lastFd && d == id)
    ensures var s' := OpenFile(s, pid, id, flags);
            forall p, fd | p in s'.procs && fd in s'.procs[p].files && !(p == pid && fd == s.procs[pid].lastFd) ::
              p in s.procs && fd in s.procs[p].files && s'.procs[p].files[fd] == s.procs[p].files[fd]
  {
    hide FilesOk, HooksOk, NamesOk, NextFree;
  }

  lemma OpenFileInv(s: Fs, pid: int, id: int, flags: bv32)
    requires Inv(s) && pid in s.procs && id in s.devices && Openable(s.devices[id])
    requires Allows(s.devices[id].flags, flags)
    ensures Inv(OpenFile(s, pid, id, flags))
  {
    hide OpenOn, Openable, Allows;
    var s' := OpenFile(s, pid, id, flags);
    var fd := s.procs[pid].lastFd;
    OpenFileOpens(s, pid, id, flags);
    assert FilesOk(s') by {
      OpenFileFiles(s, pid, id, flags);
    }
    forall d | d in s'.devices && Openable(s'.devices[d]) ensures HooksExact(s', d) {
      OpenFileHooks(s, pid, id, flags, d);
    }
  }

  lemma OpenFileFiles(s: Fs, pid: int, id: int, flags: bv32)
    requires Inv(s) && pid in s.procs && id in s.devices && Openable(s.devices[id])
    requires Allows(s.devices[id].flags, flags)
    ensures FilesOk(OpenFile(s, pid, id, flags))
  {
    hide HooksOk, NamesOk, NextFree, Openable, Allows;
    var s' := OpenFile(s, pid, id, flags);
    forall p, fd, d | OpenOn(s', p, fd, d)
      ensures fd >= 0 && d in s'.devices && Openable(s'.devices[d])
      ensures Allows(s'.devices[d].flags, s'.procs[p].files[fd].flags)
    {
      FlagsOnly(s.devices[d], s'.devices[d]);
      if !(p == pid && fd == s.procs[pid].lastFd) {
        assert OpenOn(s, p, fd, d);
      }
    }
  }

  lemma FlagsOnly(d: Device, d': Device)
    ensures d.flags == d'.flags ==> Openable(d) == Openable(d')
  {
  }

  lemma OpenFileHooks(s: Fs, pid: int, id: int, flags: bv32, d: int)
    requires Inv(s) && pid in s.procs && id in s.devices && d in s.devices && Openable(s.devices[d])
    ensures HooksExact(OpenFile(s, pid, id, flags), d)
  {
    var s' := OpenFile(s, pid, id, flags);
    var fd := s.procs[pid].lastFd;
    OpenFileOpens(s, pid, id, flags);
    assert HooksExact(s, d) && !OpenOn(s, pid, fd, d);
    hide FilesOk, HooksOk, NamesOk, Openable, Allows, OpenOn;
    if d == id {
      assert s'.devices[d].hooks == s.devices[d].hooks + [Hook(pid, fd)];
      assert Hook(pid, fd) !in s.devices[d].hooks;
    } else {
      assert s'.devices[d].hooks == s.devices[d].hooks;
    }
  }

  lemma CloseFileOpens(s: Fs, pid: int, fd: int)
    requires Inv(s) && pid in s.procs && fd in s.procs[pid].files && s.procs[pid].files[fd].device in s.devices
    ensures forall p, f, d :: OpenOn(CloseFile(s, pid, fd), p, f, d) <==> OpenOn(s, p, f, d) && !(p == pid && f == fd)
  {
    hide FilesOk, HooksOk, NamesOk, Without;
  }

  lemma CloseFileInv(s: Fs, pid: int, fd: int)
    requires Inv(s) && pid in s.procs && fd in s.procs[pid].files && s.procs[pid].files[fd].device in s.devices
    ensures Inv(CloseFile(s, pid, fd))
  {
    hide Without;
    var s' := CloseFile(s, pid, fd);
    var id := s.procs[pid].files[fd].device;
    assert OpenOn(s, pid, fd, id);
    CloseFileOpens(s, pid, fd);
    assert FilesOk(s') by {
      hide HooksOk, NamesOk, Openable, Allows;
      forall p, f, d | OpenOn(s', p, f, d)
        ensures f >= 0 && d in s'.devices && Openable(s'.devices[d])
        ensures Allows(s'.devices[d].flags, s'.procs[p].files[f].flags)
      {
        assert OpenOn(s, p, f, d);
        FlagsOnly(s.devices[d], s'.devices[d]);
      }
    }
    forall d | d in s'.devices && Openable(s'.devices[d]) ensures HooksExact(s', d) {
      assert HooksExact(s, d);
      hide OpenOn, Openable, Allows, FilesOk, NamesOk, HooksOk;
      if d == id {
        WithoutDistinct(s.devices[id].hooks, Hook(pid, fd));
      }
    }
  }

  lemma NextInv(s: Fs, e: Event)
    requires Inv(s)
    ensures Inv(Next(s, e))
  {
    match e
    case Register(pid, port, flags, name, mem, stored) =>
      RegisterInv(s, pid, port, flags, name, stored);
    case Deregister(pid, id) =>
      DeregisterInv(s, id);
    case Open(pid, name, flags, mem, fileMem) =>
      WithProcInv(s, pid);
      hide Inv, Allows, Openable;
      var s1, dev := WithProc(s, pid), ByName(s.devices, name);
      if dev.Some? {
        if !Openable(s.devices[dev.value]) {
          LeakInv(s1, dev.value, s.devices[dev.value].hooks + [Hook(pid, s1.procs[pid].lastFd)]);
        } else if Allows(s.devices[dev.value].flags, flags) {
          OpenFileInv(s1, pid, dev.value, flags);
        }
      }
    case Close(pid, fd) =>
      if pid in s.procs && fd in s.procs[pid].files {
        assert OpenOn(s, pid, fd, s.procs[pid].files[fd].device);
        CloseFileInv(s, pid, fd);
      }
  }

  lemma RegisterInv(s: Fs, pid: int, port: int, flags: bv32, name: string, stored: bool)
    requires Inv(s)
    ensures Inv(s.(nextId := s.nextId + 1))
    ensures ByName(s.devices, name).None? ==>
      Inv(s.(nextId := s.nextId + 1, devices := s.devices[s.nextId := Device(pid, port, flags, name, [])]))
  {
    var s0 := s.(nextId := s.nextId + 1);
    assert forall p, fd, d :: OpenOn(s0, p, fd, d) == OpenOn(s, p, fd, d);
    forall d | d in s.devices && Openable(s.devices[d]) ensures HooksExact(s0, d) {
      assert HooksExact(s, d);
    }
    if ByName(s.devices, name).None? {
      var s1 := s0.(devices := s.devices[s.nextId := Device(pid, port, flags, name, [])]);
      assert forall p, fd, d :: OpenOn(s1, p, fd, d) == OpenOn(s, p, fd, d);
      forall d | d in s1.devices && Openable(s1.devices[d]) ensures HooksExact(s1, d) {
        if d != s.nextId {
          assert HooksExact(s, d);
        }
      }
      assert forall id :: !Named(s.devices, name, id);
      assert forall id :: id in s.devices ==> Named(s.devices, s.devices[id].name, id);
    }
  }

  /** A device without hooks has no open file, so nothing refers to it. */
  lemma DeregisterInv(s: Fs, id: int)
    requires Inv(s)
    ensures id in s.devices && s.devices[id].hooks == [] ==> Inv(s.(devices := s.devices - {id}))
  {
    if id in s.devices && s.devices[id].hooks == [] {
      var s' := s.(devices := s.devices - {id});
      assert forall p, fd, d :: OpenOn(s', p, fd, d) == OpenOn(s, p, fd, d);
      forall p, fd ensures !OpenOn(s, p, fd, id) {
        assert Openable(s.devices[id]) ==> HooksExact(s, id);
        assert Hook(p, fd) !in s.devices[id].hooks;
      }
      forall d | d in s'.devices && Openable(s'.devices[d]) ensures HooksExact(s', d) {
        assert HooksExact(s, d);
      }
    }
  }

  // ---------- Whole runs ----------

  const START: Fs := Fs(map[], map[], 1)

  /**
    After any requests: the next descriptor is not open, hooks are the open files, and every open file
    has its device.
   */
  lemma EveryRun(events: seq<Event>)
    ensures Inv(START)
    ensures var s := Run(START, events);
      && (forall pid :: pid in s.procs ==> s.procs[pid].lastFd !in s.procs[pid].files)
      && (forall id :: id in s.devices && Openable(s.devices[id]) ==> HooksExact(s, id))
      && (forall pid, fd, id :: OpenOn(s, pid, fd, id) ==> id in s.devices && Openable(s.devices[id]))
  {
    assert forall pid, fd, id :: !OpenOn(START, pid, fd, id);
  }

  /** A device can be deregistered exactly when no descriptor is open on it. */
  lemma DeregisterIffUnused(s: Fs, id: int)
    requires Inv(s) && id in s.devices && Openable(s.devices[id])
    ensures id !in Next(s, Deregister(s.devices[id].pid, id)).devices <==> forall pid, fd :: !OpenOn(s, pid, fd, id)
  {
    assert HooksExact(s, id);
    var hooks := s.devices[id].hooks;
    if hooks != [] {
      assert Hook(hooks[0].pid, hooks[0].fd) in hooks;
    }
  }

  /** Closing the descriptor that an open returned restores the tables exactly. */
  lemma CloseUndoesOpen(s: Fs, pid: int, id: int, flags: bv32)
    requires Inv(s) && pid in s.procs && id in s.devices && Openable(s.devices[id])
    ensures OpenOn(OpenFile(s, pid, id, flags), pid, s.procs[pid].lastFd, id)
    ensures CloseFile(OpenFile(s, pid, id, flags), pid, s.procs[pid].lastFd) == s
  {
    var p := s.procs[pid];
    var h := Hook(pid, p.lastFd);
    var hooks := s.devices[id].hooks;
    assert HooksExact(s, id) && !OpenOn(s, pid, p.lastFd, id);
    AppendDropped(hooks, h);
    var s' := CloseFile(OpenFile(s, pid, id, flags), pid, p.lastFd);
    assert s'.procs[pid].files == p.files;
    assert s'.procs == s.procs;
    assert s'.devices[id] == s.devices[id];
    assert s'.devices == s.devices;
  }

  lemma AppendDropped(hooks: seq<Hook>, h: Hook)
    requires h !in hooks
    ensures Without(hooks + [h], h) == hooks
  {
    var all := hooks + [h];
    assert all[..|hooks|] == hooks;
    WithoutIsRemoveAt(all, |hooks|);
  }

  /** The request opens a descriptor. */
  ghost predicate Opens(s: Fs, e: Event)
    requires Inv(s)
  {
    exists pid, fd, id :: OpenOn(Next(s, e), pid, fd, id) && !OpenOn(s, pid, fd, id)
  }

  /** An open that opens nothing leaves all hooks as they were, if and only if the device is absent or can be opened. */
  lemma FailedOpenKeepsHooks(s: Fs, e: Event)
    requires Inv(s) && e.Open? && (e.mem || e.pid in s.procs)
    ensures !Opens(s, e) ==>
      (Next(s, e).devices == s.devices <==> ByName(s.devices, e.name).None? || Openable(s.devices[ByName(s.devices, e.name).value]))
  {
    var s1, dev := WithProc(s, e.pid), ByName(s.devices, e.name);
    if dev.Some? {
      var id, fd := dev.value, s1.procs[e.pid].lastFd;
      if !Openable(s.devices[id]) {
        assert |Next(s, e).devices[id].hooks| == |s.devices[id].hooks| + 1;
      } else if Allows(s.devices[id].flags, e.flags) && e.fileMem {
        WithProcInv(s, e.pid);
        OpenFileOpens(s1, e.pid, id, e.flags);
        assert OpenOn(Next(s, e), e.pid, fd, id) && !OpenOn(s, e.pid, fd, id);
      }
    }
  }

  /** The hook left on a device that cannot be opened is never taken back: the device can never be deregistered. */
  lemma {:induction false} LeakedHookIsForever(s: Fs, events: seq<Event>, id: int)
    requires Inv(s) && id in s.devices && !Openable(s.devices[id]) && s.devices[id].hooks != []
    ensures id in Run(s, events).devices && Run(s, events).devices[id].hooks != []
    decreases |events|
  {
    if events != [] {
      NextInv(s, events[0]);
      LeakKept(s, events[0], id);
      LeakedHookIsForever(Next(s, events[0]), events[1..], id);
    }
  }

  lemma LeakKept(s: Fs, e: Event, id: int)
    requires Inv(s) && id in s.devices && !Openable(s.devices[id]) && s.devices[id].hooks != []
    ensures id in Next(s, e).devices && Next(s, e).devices[id].flags == s.devices[id].flags
    ensures Next(s, e).devices[id].hooks != []
  {
    if e.Close? && e.pid in s.procs && e.fd in s.procs[e.pid].files {
      assert OpenOn(s, e.pid, e.fd, s.procs[e.pid].files[e.fd].device);
    }
  }

  function LeakRun(name: string): seq<Event> {
    [Register(1, 7, FLAG_READ, name, true, true), Open(2, name, FLAG_READ, true, true), Deregister(1, 1)]
  }

  /** One failed open is enough: a process registers a device that cannot be opened, another opens it. */
  lemma LeakHappens(name: string)
    ensures Inv(START)
    ensures var s := Run(START, LeakRun(name));
      1 in s.devices && s.devices[1].hooks == [Hook(2, 0)] && forall pid, fd, id :: !OpenOn(s, pid, fd, id)
  {
    assert Inv(START) by {
      assert forall pid, fd, id :: !OpenOn(START, pid, fd, id);
    }
    var e1, e2, e3 := LeakRun(name)[0], LeakRun(name)[1], LeakRun(name)[2];
    assert forall id :: !Named(START.devices, name, id);
    NextInv(START, e1);
    var s1 := Next(START, e1);
    assert s1 == Fs(map[], map[1 := Device(1, 7, FLAG_READ, name, [])], 2);
    assert Named(s1.devices, name, 1);
    NextInv(s1, e2);
    var s2 := Next(s1, e2);
    assert s2.devices[1].hooks == [] + [Hook(2, 0)];
    assert forall pid, fd, id :: !OpenOn(s2, pid, fd, id);
    NextInv(s2, e3);
    assert Next(s2, e3) == s2;
    assert [e1, e2, e3][1..] == [e2, e3] && [e2, e3][1..] == [e3];
    assert Run(START, [e1, e2, e3]) == Run(s1, [e2, e3]) == Run(s2, [e3]) == Run(s2, []) == s2;
  }

  /**
    The process has one more descriptor, the one that was next for it; the new next descriptor is the
    first one above that is not open.
   */
  ghost predicate Gained(before: map<int, Proc>, after: map<int, Proc>, pid: int, fd: int) {
    var was := if pid in before then before[pid] else Proc(0, map[]);
    && pid in after && fd in after[pid].files && after == before[pid := after[pid]]
    && fd == was.lastFd && fd !in was.files && after[pid].files == was.files[fd := after[pid].files[fd]]
    && after[pid].lastFd > fd && after[pid].lastFd !in after[pid].files
    && (forall k :: fd < k < after[pid].lastFd ==> k in after[pid].files)
  }

  // ---------- The server ----------

  datatype Operation = Script | Read | Write | Stream | Map | Unmap | Other

  function Needed(op: Operation): Option<bv32> {
    match op
    case Script => Some(FLAG_SCRIPT)
    case Read => Some(FLAG_READ)
    case Write => Some(FLAG_WRITE)
    case Stream => Some(FLAG_STREAM)
    case Map => Some(FLAG_MAP)
    case Unmap => Some(FLAG_UNMAP)
    case Other => None
  }

  /** The open flags of a descriptor permit an operation. */
  predicate Permitted(have: bv32, op: Operation) {
    && (op == Read ==> have & 2 == 2) && (op == Write ==> have & 4 == 4) && (op == Stream ==> have & 8 == 8)
    && (op == Script ==> have & 16 == 16) && (op == Map ==> have & 32 == 32) && (op == Unmap ==> have & 64 == 64)
  }

  /** The table of needed flags says the same. */
  lemma NeededExact(have: bv32, op: Operation)
    ensures Needed(op).None? <==> op == Other
    ensures op != Other ==> (Allows(have, Needed(op).value) <==> Permitted(have, op))
  {
  }

  /** What becomes of a request: refused, forwarded to the driver, or reported undeliverable with a status number. */
  datatype Dispatched =
    | Refused(status: Status)
    | Forwarded(pid: int, port: int, device: int, request: nat)
    | Undelivered(code: int)

  class Server {
    var procs: map<int, Proc>
    var devices: map<int, Device>
    var nextId: int
    const table: RequestTable

    ghost function State(): Fs
      reads this
    {
      Fs(procs, devices, nextId)
    }

    ghost predicate Valid()
      reads this
    {
      Inv(State())
    }

    constructor (table: RequestTable)
      ensures Valid() && State() == START && this.table == table
    {
      procs, devices, nextId, this.table := map[], map[], 1, table;
      new;
      assert forall pid, fd, id :: !OpenOn(State(), pid, fd, id);
    }

    /** find_device_by_name: what htable_retrieve finds, whatever the hash of the name. */
    method FindByName(name: string) returns (r: Option<int>)
      requires Valid()
      ensures r == ByName(devices, name)
    {
      if id: int :| id in devices && devices[id].name == name {
        assert Named(devices, name, id);
        return Some(id);
      }
      assert forall id :: !Named(devices, name, id);
      return None;
    }

    /** The descriptor scan at the end of open(). */
    method ScanFd(files: map<int, File>, fd: int) returns (n: int)
      ensures n == NextFree(files, fd + 1)
      ensures n > fd && n !in files && forall k :: fd < k < n ==> k in files
    {
      n := fd + 1;
      while n in files
        invariant n > fd && NextFree(files, n) == NextFree(files, fd + 1)
        decreases NextFree(files, fd + 1) - n
      {
        n := n + 1;
      }
    }

    /** release_device: the first hook of the descriptor is removed and the later ones move up. */
    method ReleaseDevice(id: int, pid: int, fd: int) returns (ok: bool)
      requires id in devices
      modifies this`devices
      ensures ok == (Hook(pid, fd) in old(devices)[id].hooks)
      ensures State() == SetHooks(old(State()), id, Without(old(devices)[id].hooks, Hook(pid, fd)))
    {
      var hooks := devices[id].hooks;
      var i := Find(hooks, Hook(pid, fd));
      if i < |hooks| {
        WithoutIsRemoveAt(hooks, i);
        devices := devices[id := devices[id].(hooks := RemoveAt(hooks, i))];
        return true;
      }
      assert devices[id].(hooks := hooks) == devices[id];
      assert devices[id := devices[id]] == devices;
      return false;
    }

    /** Releasing the hook that open() has just added restores the tables. */
    method Unhook(id: int, h: Hook, ghost s: Fs)
      requires Inv(s) && id in s.devices && Openable(s.devices[id]) && !OpenOn(s, h.pid, h.fd, id)
      requires State() == SetHooks(s, id, s.devices[id].hooks + [h])
      modifies this`devices
      ensures State() == s
    {
      hide Inv, Openable, OpenOn, Without;
      UnusedHook(s, id, h);
      var ok := ReleaseDevice(id, h.pid, h.fd);
    }

    /** register_device. */
    method RegisterDevice(pid: int, port: int, flags: bv32, name: string, mem: bool,
                          stored: bool) returns (status: Status)
      requires Valid()
      modifies this`devices, this`nextId
      ensures Valid() && State() == Next(old(State()), Register(pid, port, flags, name, mem, stored))
      ensures status == Exists <==> exists id :: Named(old(devices), name, id)
      ensures status == Ok ==>
        old(nextId) !in old(devices) && devices == old(devices)[old(nextId) := Device(pid, port, flags, name, [])]
      ensures status != Ok ==> devices == old(devices)
      ensures nextId == old(nextId) + if status == Exists || !mem then 0 else 1
      ensures status == Ok <==> status != Exists && mem && stored
    {
      NextInv(State(), Register(pid, port, flags, name, mem, stored));
      var found := FindByName(name);
      if found.Some? {
        return Exists;
      }
      if !mem {
        return NoMem;
      }
      nextId := nextId + 1;
      if !stored {
        return NoMem;
      }
      devices := devices[nextId - 1 := Device(pid, port, flags, name, [])];
      return Ok;
    }

    /** deregister_device. */
    method DeregisterDevice(pid: int, id: int) returns (status: Status)
      requires Valid()
      modifies this`devices
      ensures Valid() && State() == Next(old(State()), Deregister(pid, id))
      ensures status == NotFound <==> id !in old(devices) || old(devices)[id].pid != pid
      ensures devices == if status == Ok then old(devices) - {id} else old(devices)
      ensures status == InUse <==> id in old(devices) && old(devices)[id].pid == pid && old(devices)[id].hooks != []
      ensures status in {Ok, NotFound, InUse}
      ensures status == Ok ==> forall p, fd :: !OpenOn(State(), p, fd, id)
      ensures status == InUse && id in devices && Openable(devices[id]) ==> exists p, fd :: OpenOn(State(), p, fd, id)
    {
      ghost var s := State();
      NextInv(s, Deregister(pid, id));
      if id !in devices || devices[id].pid != pid {
        return NotFound;
      }
      if Openable(devices[id]) {
        DeregisterIffUnused(s, id);
      }
      if devices[id].hooks != [] {
        return InUse;
      }
      devices := devices - {id};
      return Ok;
    }

    /** open(). The hook is added before the device is asked whether it can be opened. */
    method OpenDevice(pid: int, name: string, flags: bv32, mem: bool, fileMem: bool) returns (status: Status, fd: int)
      requires Valid()
      modifies this`procs, this`devices
      ensures Valid() && State() == Next(old(State()), Open(pid, name, flags, mem, fileMem))
      ensures status == NoMem <==> (pid !in old(procs) && !mem) || (Accepts(old(devices), name, flags) && !fileMem)
      ensures status == Ok <==> (pid in old(procs) || mem) && Accepts(old(devices), name, flags) && fileMem
      ensures status == NotSupported <==>
        (pid in old(procs) || mem) && exists id :: Named(old(devices), name, id) && old(devices)[id].flags & 1 == 0
      ensures status == NotFound ==> forall id :: !Named(old(devices), name, id)
      ensures status == BadFlags ==>
        exists id :: Named(old(devices), name, id) && !Allows(old(devices)[id].flags, flags)
      ensures status == Ok ==> pid in procs && fd in procs[pid].files && procs[pid].files[fd].flags == flags
      ensures status == Ok ==> Gained(old(procs), procs, pid, fd)
      ensures status == Ok ==>
        exists id :: Named(old(devices), name, id) && OpenOn(State(), pid, fd, id) && !OpenOn(old(State()), pid, fd, id)
      ensures status != Ok ==> forall p, f, d :: OpenOn(State(), p, f, d) ==> OpenOn(old(State()), p, f, d)
    {
      hide Inv, Openable, Allows, OpenOn, Without, NextFree, HooksOk, NamesOk;
      fd := -1;
      ghost var s := State();
      NextInv(s, Open(pid, name, flags, mem, fileMem));
      WithProcInv(s, pid);
      OpenableBit(s, name);
      if pid !in procs {
        if !mem {
          return NoMem, fd;
        }
        procs := procs[pid := Proc(0, map[])];
      }
      ghost var s1 := State();
      var proc := procs[pid];
      FreshDescriptor(s1, pid);
      var dev := FindByName(name);
      assert dev == ByName(s.devices, name);
      if dev.None? {
        return NotFound, fd;
      }
      var id, hook := dev.value, Hook(pid, proc.lastFd);
      devices := devices[id := devices[id].(hooks := devices[id].hooks + [hook])];
      FlagsOnly(s.devices[id], devices[id]);
      HooksOpenNothing(s1, id, devices[id].hooks);
      if !Openable(devices[id]) {
        return NotSupported, fd;
      }
      if !Allows(devices[id].flags, flags) || !fileMem {
        var badFlags := !Allows(devices[id].flags, flags);
        Unhook(id, hook, s1);
        return if badFlags then BadFlags else NoMem, fd;
      }
      OpenFileOpens(s1, pid, id, flags);
      fd := proc.lastFd;
      var files := proc.files[fd := File(id, flags)];
      var next := ScanFd(files, fd);
      procs := procs[pid := Proc(next, files)];
      assert Gained(s.procs, procs, pid, fd);
      return Ok, fd;
    }

    /** close(). */
    method CloseDescriptor(pid: int, fd: int) returns (status: Status)
      requires Valid()
      modifies this`procs, this`devices
      ensures Valid() && State() == Next(old(State()), Close(pid, fd))
      ensures status == Ok <==> exists id :: OpenOn(old(State()), pid, fd, id)
      ensures status == Ok || status == NotFound
      ensures status == Ok ==> pid in old(procs) && procs == old(procs)[pid := Proc(fd, old(procs)[pid].files - {fd})]
      ensures forall p, f, d :: OpenOn(State(), p, f, d) <==> OpenOn(old(State()), p, f, d) && !(p == pid && f == fd)
    {
      hide Inv, OpenOn, Without;
      ghost var s := State();
      NextInv(s, Close(pid, fd));
      OpenFacts(s, pid, fd);
      if fd < 0 || pid !in procs || fd !in procs[pid].files {
        return NotFound;
      }
      var file := procs[pid].files[fd];
      CloseFileOpens(s, pid, fd);
      procs := procs[pid := procs[pid].(lastFd := fd)];
      var ok := ReleaseDevice(file.device, pid, fd);
      procs := procs[pid := procs[pid].(files := procs[pid].files - {fd})];
      assert State() == CloseFile(s, pid, fd) == Next(s, Close(pid, fd));
      return Ok;
    }

    /** dispatch_request; `delivered` is the success of the message to the driver. */
    method Dispatch(pid: int, port: int, fd: int, op: Operation, delivered: bool) returns (r: Dispatched)
      requires Valid() && table.Valid() && exists i :: 0 <= i < STATES && table.slots[i].Idle?
      modifies table, table.slots
      ensures Valid() && table.Valid()
      ensures r == Refused(NotFound) <==> forall id :: !OpenOn(State(), pid, fd, id)
      ensures r == Refused(NotSupported) <==> pid in procs && fd in procs[pid].files && Needed(op).None?
      ensures r == Refused(BadFlags) <==>
        && pid in procs
        && fd in procs[pid].files
        && Needed(op).Some?
        && !Allows(procs[pid].files[fd].flags, Needed(op).value)
      ensures pid in procs && fd in procs[pid].files && op != Other ==>
        (r == Refused(BadFlags) <==> !Permitted(procs[pid].files[fd].flags, op))
      ensures r.Refused? ==> r.status in {NotFound, NotSupported, BadFlags}
      ensures r.Refused? ==> table.book == old(table.book) && table.slots[..] == old(table.slots[..])
      ensures r.Forwarded? ==>
        && OpenOn(State(), pid, fd, r.device)
        && r.device in devices
        && r.pid == devices[r.device].pid
        && r.port == devices[r.device].port
      ensures r.Forwarded? ==> Needed(op).Some? && Allows(devices[r.device].flags, Needed(op).value)
      ensures r.Forwarded? ==>
        r.request < STATES && table.slots[..] == old(table.slots[..])[r.request := Waiting(pid, port, r.pid)]
      ensures r.Forwarded? ==>
        && table.book.asked == old(table.book).asked + [Asked(pid, port, r.pid)]
        && table.book.answers == old(table.book).answers
      ensures delivered ==> !r.Undelivered?
      ensures !delivered ==> !r.Forwarded?
      ensures r.Undelivered? ==>
        table.slots[..] == old(table.slots[..]) && Answered(table.book, |old(table.book).asked|)
      ensures r.Undelivered? ==> r.code == port && (r.code == Code(Ok) <==> port == 0)
      ensures r.Undelivered? && port >= 0 ==> forall st :: st != Ok ==> r.code != Code(st)
    {
      ghost var s := State();
      OpenFacts(s, pid, fd);
      CodeFacts(port);
      hide Inv, OpenOn, Allows, BookOk, Permitted, Needed, Code, Answered;
      if fd < 0 || pid !in procs || fd !in procs[pid].files {
        return Refused(NotFound);
      }
      var file := procs[pid].files[fd];
      NeededExact(file.flags, op);
      var needed := Needed(op);
      if needed.None? {
        return Refused(NotSupported);
      }
      if !Allows(file.flags, needed.value) {
        return Refused(BadFlags);
      }
      var dev := devices[file.device];
      assert Allows(dev.flags, needed.value) by {
        AllowsTrans(dev.flags, file.flags, needed.value);
      }
      r := Forward(pid, port, file.device, delivered);
    }

    /** The tail of dispatch_request: the request gets a slot, which a failed delivery clears again. */
    method Forward(pid: int, port: int, device: int, delivered: bool) returns (r: Dispatched)
      requires table.Valid() && device in devices && exists i :: 0 <= i < STATES && table.slots[i].Idle?
      modifies table, table.slots
      ensures table.Valid() && if delivered then r.Forwarded? else r == Undelivered(port)
      ensures delivered ==>
        && r.pid == devices[device].pid && r.port == devices[device].port && r.device == device && r.request < STATES
        && table.slots[..] == old(table.slots[..])[r.request := Waiting(pid, port, r.pid)]
        && table.book.asked == old(table.book).asked + [Asked(pid, port, r.pid)]
        && table.book.answers == old(table.book).answers
      ensures !delivered ==> table.slots[..] == old(table.slots[..]) && Answered(table.book, |old(table.book).asked|)
    {
      hide BookOk, Cyclic;
      var dev := devices[device];
      var id := table.Insert(pid, port, dev.pid);
      if !delivered {
        AnsweredGrows(table.book, id, None, table.slots[id], |old(table.book).asked|);
        var who := table.Remove(id, dev.pid, None);
        return Undelivered(who.value.1);
      }
      return Forwarded(dev.pid, dev.port, device, id);
    }
  }

  /** A port number is no error code, and only port 0 is the code of a success. */
  lemma CodeFacts(port: int)
    ensures port == Code(Ok) <==> port == 0
    ensures port >= 0 ==> forall st :: st != Ok ==> port != Code(st)
  {
  }

  /** The open flag of the device with that name. */
  lemma OpenableBit(s: Fs, name: string)
    requires Inv(s)
    ensures (exists id :: Named(s.devices, name, id) && s.devices[id].flags & 1 == 0) <==>
              ByName(s.devices, name).Some? && !Openable(s.devices[ByName(s.devices, name).value])
  {
    hide FilesOk, HooksOk;
  }

  /** A request from port 0 that could not be delivered is reported to its sender as a success. */
  method LostRequest() returns (r: Dispatched)
    ensures r == Undelivered(Code(Ok))
  {
    hide Inv, Accepts, Next, Openable, Allows, Gained, Permitted, Answered, BookOk;
    var table := new RequestTable();
    var server := new Server(table);
    var name := "disk";
    var st := server.RegisterDevice(1, 5, FLAG_OPEN | FLAG_READ, name, true, true);
    OnlyDevice(server.devices, 1, 5, name);
    var fd;
    st, fd := server.OpenDevice(2, name, FLAG_READ, true, true);
    assert server.table.slots[0].Idle?;
    assert Allows(FLAG_READ, FLAG_READ) by {
      AllSelf();
    }
    r := server.Dispatch(2, 0, fd, Read, false);
  }

  lemma AllSelf()
    ensures Allows(FLAG_READ, FLAG_READ)
  {
  }

  lemma OnlyDevice(devices: map<int, Device>, pid: int, port: int, name: string)
    requires devices == map[][1 := Device(pid, port, FLAG_OPEN | FLAG_READ, name, [])]
    ensures Accepts(devices, name, FLAG_READ)
  {
    assert Named(devices, name, 1);
  }

  lemma AllowsTrans(a: bv32, b: bv32, c: bv32)
    requires Allows(a, b) && Allows(b, c)
    ensures Allows(a, c)
  {
    assert a & c == a & (b & c) == (a & b) & c;
  }

  lemma OpenFacts(s: Fs, pid: int, fd: int)
    requires Inv(s)
    ensures pid in s.procs && fd in s.procs[pid].files ==>
      fd >= 0 && s.procs[pid].files[fd].device in s.devices && OpenOn(s, pid, fd, s.procs[pid].files[fd].device)
    ensures pid in s.procs && fd in s.procs[pid].files ==>
      Allows(s.devices[s.procs[pid].files[fd].device].flags, s.procs[pid].files[fd].flags)
    ensures pid !in s.procs || fd !in s.procs[pid].files ==> forall id :: !OpenOn(s, pid, fd, id)
    ensures forall p, f, d :: OpenOn(s, p, f, d) ==> p in s.procs && f in s.procs[p].files
  {
    assert pid in s.procs && fd in s.procs[pid].files ==> OpenOn(s, pid, fd, s.procs[pid].files[fd].device);
  }

  lemma HooksOpenNothing(s: Fs, id: int, hooks: seq<Hook>)
    requires id in s.devices
    ensures forall p, fd, d :: OpenOn(SetHooks(s, id, hooks), p, fd, d) == OpenOn(s, p, fd, d)
  {
  }

  lemma FreshDescriptor(s: Fs, pid: int)
    requires Inv(s) && pid in s.procs
    ensures s.procs[pid].lastFd !in s.procs[pid].files
    ensures forall id :: !OpenOn(s, pid, s.procs[pid].lastFd, id)
  {
  }

  /** The hook that open() adds was not there, so that releasing it restores the device. */
  lemma UnusedHook(s: Fs, id: int, h: Hook)
    requires Inv(s) && id in s.devices && Openable(s.devices[id]) && !OpenOn(s, h.pid, h.fd, id)
    ensures Without(s.devices[id].hooks + [h], h) == s.devices[id].hooks
    ensures SetHooks(s, id, s.devices[id].hooks) == s
  {
    assert HooksExact(s, id);
    AppendDropped(s.devices[id].hooks, h);
    assert s.devices[id := s.devices[id]] == s.devices;
  }
}
