/**
  Messages of kernel/src/messages.c on the ports of one process: send, receive, peek and drop over
  one paged queue per port, with the per-thread hint `last_port_message`; and the port operations
  of kernel/src/ports.c that create, drain and release those ports.
 */
module Messages {
  import opened Bits
  import opened Seqs
  import opened Ports
  import opened PagedQueue

  const MESSAGE_OBJECTS: nat := 256

  datatype Message = Message(sourcePid: int, sourcePort: int, destPort: int, data: seq<int>)

  type MessageQueue = Queue<Message>

  const BLANK: seq<Message> := seq(MESSAGE_OBJECTS, _ => Message(0, 0, 0, []))

  /** What is waiting, given what was sent and what was taken: the queue of port `p` is sound. */
  ghost predicate PortOk(p: int, q: MessageQueue, sent: seq<Message>, taken: seq<Message>) {
    && Valid(q, MESSAGE_OBJECTS)
    && sent == taken + Contents(q, MESSAGE_OBJECTS)
    && forall i :: 0 <= i < |sent| ==> sent[i].destPort == p
  }

  lemma PortAfterSend(p: int, q: MessageQueue, sent: seq<Message>, taken: seq<Message>, m: Message)
    requires PortOk(p, q, sent, taken) && m.destPort == p
    ensures PortOk(p, Pushed(q, MESSAGE_OBJECTS, BLANK, m), sent + [m], taken)
  {
    hide Valid, Contents, Pushed;
    QueueRefinesFifo(q, MESSAGE_OBJECTS, BLANK, m);
  }

  /** Taking a message hands out the oldest one that was sent and not yet taken. */
  lemma PortAfterTake(p: int, q: MessageQueue, sent: seq<Message>, taken: seq<Message>)
    requires PortOk(p, q, sent, taken)
    ensures var (r, q') := Taken(q, MESSAGE_OBJECTS);
            && (r.None? <==> sent == taken)
            && (r.None? ==> PortOk(p, q', sent, taken))
            && (r.Some? ==> |taken| < |sent| && r.value == sent[|taken|] && r.value.destPort == p)
            && (r.Some? ==> PortOk(p, q', sent, taken + [r.value]))
  {
    hide Valid, Taken, Pushed;
    QueueRefinesFifo(q, MESSAGE_OBJECTS, BLANK, Message(0, 0, 0, []));
    hide Contents;
  }

  /** The message that peek_message reports for a queue that is not empty. */
  function Peeked(q: MessageQueue): (m: Message)
    requires Valid(q, MESSAGE_OBJECTS) && q.position < q.last
  {
    ReadPage(q, MESSAGE_OBJECTS);
    q.pages[0][q.position % MESSAGE_OBJECTS]
  }

  /** A peek reports the message that the next receive returns, unless the first page has been read to its end. */
  lemma PeekThenReceive(q: MessageQueue)
    requires Valid(q, MESSAGE_OBJECTS) && q.position < q.last
    ensures q.position < MESSAGE_OBJECTS ==> Taken(q, MESSAGE_OBJECTS).0 == Some(Peeked(q))
    ensures q.position == MESSAGE_OBJECTS ==>
      Peeked(q) == q.pages[0][0] && Taken(q, MESSAGE_OBJECTS).0 == Some(q.pages[1][0])
  {
    ReadPage(q, MESSAGE_OBJECTS);
  }

  class Process {
    var owner: seq<int>
    var masked: seq<bool>
    var queues: seq<MessageQueue>
    var ports: map<int, seq<int>>
    var hint: map<int, int>
    ghost var held: map<int, seq<int>>
    ghost var sent: seq<seq<Message>>
    ghost var taken: seq<seq<Message>>

    ghost predicate Sound()
      reads this
    {
      && Agree(owner, held) && Packed(ports, held) && hint.Keys == held.Keys
      && |masked| == |queues| == |sent| == |taken| == MAX_PORTS
      && forall p :: 0 <= p < MAX_PORTS && owner[p] != -1 ==> PortOk(p, queues[p], sent[p], taken[p])
    }

    /** A process with the given threads and no port. */
    constructor (tids: set<int>)
      requires forall t :: t in tids ==> t >= 0
      ensures Sound() && held.Keys == tids && forall t :: t in tids ==> held[t] == [] && t in hint && hint[t] == -1
      ensures forall p :: 0 <= p < MAX_PORTS ==> owner[p] == -1
    {
      owner, masked := seq(MAX_PORTS, _ => -1), seq(MAX_PORTS, _ => false);
      queues := seq(MAX_PORTS, _ => Empty());
      ports, hint := map t | t in tids :: Pad([]), map t | t in tids :: -1;
      held, sent, taken := map t | t in tids :: [], seq(MAX_PORTS, _ => []), seq(MAX_PORTS, _ => []);
    }

    /** port2tid. */
    function Port2Tid(port: int): int
      reads this
      requires |owner| == MAX_PORTS
    {
      if port < 0 || port >= MAX_PORTS then -1 else owner[port]
    }

    /** port_flags(proc, port, IPC_MASKED) != 0: the port is out of range, free or masked. */
    predicate Closed(port: int)
      reads this`owner, this`masked
      requires |owner| == |masked| == MAX_PORTS
    {
      port < 0 || port >= MAX_PORTS || owner[port] == -1 || masked[port]
    }

    /** create_port. `mem` tells whether the queue allocations succeed. */
    method CreatePort(port: int, tid: int, mem: bool) returns (rc: int)
      requires Sound()
      modifies this
      ensures Sound() && (rc == 0 || rc == -1)
      ensures rc == 0 <==> IsPort(port) && old(owner)[port] == -1 && tid in old(held) && mem
      ensures rc == 0 ==> owner == old(owner)[port := tid] && held == old(held)[tid := old(held)[tid] + [port]]
      ensures rc == 0 ==> sent == old(sent)[port := []] && taken == old(taken)[port := []]
      ensures hint == old(hint) && masked == if rc == 0 then old(masked)[port := false] else old(masked)
      ensures rc == -1 ==> owner == old(owner) && held == old(held) && sent == old(sent) && taken == old(taken)
    {
      hide Agree, PortOk, Pad;
      AgreeFacts(owner, held);
      assert ports.Keys == held.Keys;
      if port < 0 || port >= MAX_PORTS || owner[port] != -1 || tid !in ports || !mem {
        return -1;
      }
      Install(port, tid);
      return 0;
    }

    /** The tail of create_port. */
    method Install(port: int, tid: int)
      requires Sound() && IsPort(port) && |owner| == MAX_PORTS && owner[port] == -1 && tid in held
      modifies this`owner, this`masked, this`queues, this`ports, this`held, this`sent, this`taken
      ensures Sound() && owner == old(owner)[port := tid] && held == old(held)[tid := old(held)[tid] + [port]]
      ensures sent == old(sent)[port := []] && taken == old(taken)[port := []] && masked == old(masked)[port := false]
    {
      hide Agree, PortOk, Pad, Packed;
      AgreeFacts(owner, held);
      PackedAt(ports, held, tid);
      RoomForPort(owner, held, tid, port);
      var i := FirstFree(ports[tid], held[tid]);
      CreateAgrees(owner, held, tid, port);
      EmptyPort(port);
      PadAppend(held[tid], port);
      PackedUpdate(ports, held, tid, held[tid] + [port]);
      ports := ports[tid := ports[tid][i := port]];
      owner, masked, queues := owner[port := tid], masked[port := false], queues[port := Empty()];
      held := held[tid := held[tid] + [port]];
      sent, taken := sent[port := []], taken[port := []];
    }

    /** Takes the oldest message off the queue of an open port. */
    method TakeFrom(port: int) returns (r: Option<Message>)
      requires Sound() && IsPort(port) && |owner| == MAX_PORTS && owner[port] != -1
      modifies this`queues, this`taken
      ensures Sound()
      ensures r.None? <==> old(taken)[port] == sent[port]
      ensures r.None? ==> taken == old(taken)
      ensures r.Some? ==> |old(taken)[port]| < |sent[port]| && r.value == sent[port][|old(taken)[port]|]
      ensures r.Some? ==> r.value.destPort == port && taken == old(taken)[port := old(taken)[port] + [r.value]]
    {
      hide Agree, Packed, Taken, Valid, Contents;
      PortAfterTake(port, queues[port], sent[port], taken[port]);
      assert Valid(queues[port], MESSAGE_OBJECTS);
      hide PortOk;
      var (x, q) := Taken(queues[port], MESSAGE_OBJECTS);
      queues := queues[port := q];
      if x.Some? {
        taken := taken[port := taken[port] + [x.value]];
      }
      return x;
    }

    /** send_message up to the wake-up of the receiver. `mem` tells whether the allocations succeed. */
    method Send(m: Message, mem: bool) returns (rc: int)
      requires Sound()
      modifies this`queues, this`sent
      ensures Sound() && (rc == 0 || rc == -1)
      ensures rc == 0 <==> IsPort(m.destPort) && owner[m.destPort] != -1 && mem
      ensures sent == if rc == 0 then old(sent)[m.destPort := old(sent)[m.destPort] + [m]] else old(sent)
    {
      hide Pushed, Valid, Contents;
      var destTid := Port2Tid(m.destPort);
      if destTid < 0 || destTid !in ports || !mem {
        OwnersExist(owner, held);
        return -1;
      }
      PortAfterSend(m.destPort, queues[m.destPort], sent[m.destPort], taken[m.destPort], m);
      assert Valid(queues[m.destPort], MESSAGE_OBJECTS);
      hide PortOk, Agree;
      queues := queues[m.destPort := Pushed(queues[m.destPort], MESSAGE_OBJECTS, BLANK, m)];
      sent := sent[m.destPort := sent[m.destPort] + [m]];
      return 0;
    }

    /** recv_message. `from` is the port that the message was taken from. */
    method Receive(tid: int, destPort: int) returns (r: Option<Message>, ghost from: int)
      requires Sound() && tid in held
      modifies this`queues, this`taken, this`hint
      ensures Sound() && hint == old(hint)[tid := -1]
      ensures r.None? ==> taken == old(taken)
      ensures r.Some? ==>
        IsPort(from) && !Closed(from) && |old(taken)[from]| < |sent[from]| && r.value == sent[from][|old(taken)[from]|]
      ensures r.Some? ==> r.value.destPort == from && taken == old(taken)[from := old(taken)[from] + [r.value]]
      ensures IsPort(destPort) || IsPort(old(hint)[tid]) ==> var p := if IsPort(destPort) then destPort else old(hint)[tid];
        from == p && (r.Some? <==> !Closed(p) && old(taken)[p] != sent[p])
      ensures !IsPort(destPort) && !IsPort(old(hint)[tid]) ==>
        if r.Some? then from in held[tid] else forall p :: p in held[tid] && !Closed(p) ==> sent[p] == taken[p]
      ensures !IsPort(destPort) && !IsPort(old(hint)[tid]) && r.Some? ==>
        exists k :: old(FirstWaiting(tid, k)) && held[tid][k] == from
    {
      hide PortOk, Agree;
      var port := if destPort >= 0 && destPort < MAX_PORTS then destPort else hint[tid];
      hint := hint[tid := -1];
      from := port;
      HeldArePorts(owner, held, tid);
      if port >= 0 && port < MAX_PORTS {
        if Closed(port) {
          return None, from;
        }
        r := TakeFrom(port);
        return;
      }
      var i := 0;
      while i < MAX_PORTS && ports[tid][i] != -1
        invariant i <= |held[tid]| && Sound() && taken == old(taken) && hint == old(hint)[tid := -1]
        invariant forall j :: 0 <= j < i && !Closed(held[tid][j]) ==> sent[held[tid][j]] == taken[held[tid][j]]
      {
        port, from := ports[tid][i], ports[tid][i];
        assert port == held[tid][i] && port in held[tid];
        if !Closed(port) {
          r := TakeFrom(port);
          if r.Some? {
            assert old(FirstWaiting(tid, i));
            return;
          }
        }
        i := i + 1;
      }
      assert i == |held[tid]|;
      return None, from;
    }

    /** The search of a thread's array for one port. */
    method SlotOf(tid: int, port: int) returns (k: Option<nat>)
      requires Sound() && tid in held && port >= 0
      ensures k.Some? ==> k.value < |held[tid]| <= MAX_PORTS && held[tid][k.value] == port
      ensures k.None? ==> port !in held[tid]
    {
      hide Agree, Valid, Contents, PortOk, Packed;
      HeldArePorts(owner, held, tid);
      PackedAt(ports, held, tid);
      var i := 0;
      while i < MAX_PORTS && ports[tid][i] != -1 && ports[tid][i] != port
        invariant i <= |held[tid]|
        invariant port !in held[tid][..i]
      {
        i := i + 1;
      }
      if i == MAX_PORTS || ports[tid][i] == -1 {
        assert i == |held[tid]| && held[tid][..i] == held[tid];
        return None;
      }
      return Some(i);
    }

    /** The scan of peek_message: the first port of the thread's array in a range that is open and has a message. */
    method ScanWaiting(tid: int, bottom: nat, top: nat) returns (k: Option<nat>)
      requires Sound() && tid in held && bottom <= top <= MAX_PORTS && bottom <= |held[tid]|
      ensures k.Some? ==> var i := k.value; i < |held[tid]| && bottom <= i < top && WaitsAt(held[tid][i])
      ensures forall j :: bottom <= j < |held[tid]| && j < (if k.Some? then k.value else top) ==> !WaitsAt(held[tid][j])
    {
      hide Agree, Valid, Contents, PortOk, Packed;
      HeldArePorts(owner, held, tid);
      PackedAt(ports, held, tid);
      var i := bottom;
      while i < top && ports[tid][i] != -1
        invariant bottom <= i <= top && i <= |held[tid]|
        invariant forall j :: bottom <= j < i ==> !WaitsAt(held[tid][j])
      {
        var port := ports[tid][i];
        assert port == held[tid][i] && port in held[tid];
        if !Closed(port) {
          WaitingIffUntaken(port, queues[port], sent[port], taken[port]);
          if queues[port].position != queues[port].last {
            return Some(i);
          }
        }
        i := i + 1;
      }
      return None;
    }

    /** A port that is open and has a message. */
    ghost predicate WaitsAt(p: int)
      reads this`owner, this`masked, this`sent, this`taken
    {
      IsPort(p) && |owner| == |masked| == |sent| == |taken| == MAX_PORTS && !Closed(p) && sent[p] != taken[p]
    }

    /** Entry `k` of the thread's array is its first port that is open and has a message. */
    ghost predicate FirstWaiting(tid: int, k: int)
      reads this`held, this`owner, this`masked, this`sent, this`taken
      requires tid in held
    {
      0 <= k < |held[tid]| && WaitsAt(held[tid][k]) && forall j :: 0 <= j < k ==> !WaitsAt(held[tid][j])
    }

    /** peek_message: reports a waiting message and leaves its port in the hint; nothing else changes. */
    method Peek(tid: int, destPort: int) returns (r: Option<Message>)
      requires Sound() && tid in held
      modifies this`hint
      ensures Sound()
      ensures r.Some? ==> var p := hint[tid];
        && p in held[tid] && WaitsAt(p) && (IsPort(destPort) ==> p == destPort)
        && Valid(queues[p], MESSAGE_OBJECTS) && queues[p].position < queues[p].last && r.value == Peeked(queues[p])
      ensures r.Some? ==> hint == old(hint)[tid := hint[tid]]
      ensures r.Some? && !IsPort(destPort) ==> exists k :: FirstWaiting(tid, k) && held[tid][k] == hint[tid]
      ensures r.None? ==> forall p :: p in held[tid] && (!IsPort(destPort) || p == destPort) ==> !WaitsAt(p)
      ensures r.None? ==>
        hint == if IsPort(destPort) && destPort !in held[tid] then old(hint) else old(hint)[tid := -1]
    {
      hide Agree, Valid, Contents, PortOk, Packed;
      HeldArePorts(owner, held, tid);
      var bottom, top := 0, MAX_PORTS;
      if destPort >= 0 && destPort < MAX_PORTS {
        var slot := SlotOf(tid, destPort);
        if slot.None? {
          return None;
        }
        bottom := slot.value;
        top := bottom + 1;
      }
      var k := ScanWaiting(tid, bottom, top);
      if k.None? {
        hint := hint[tid := -1];
        return None;
      }
      PackedAt(ports, held, tid);
      var port := ports[tid][k.value];
      assert port == held[tid][k.value] && port in held[tid];
      WaitingIffUntaken(port, queues[port], sent[port], taken[port]);
      hint := hint[tid := port];
      assert !IsPort(destPort) ==> FirstWaiting(tid, k.value);
      return Some(Peeked(queues[port]));
    }

    /**
      A peek and the receive that follows it, from port `from`: the same message if the first page of
      that queue is not read to its end.
     */
    method PeekReceive(tid: int) returns (peeked: Option<Message>, received: Option<Message>, ghost from: int)
      requires Sound() && tid in held
      modifies this`queues, this`taken, this`hint
      ensures Sound() && (peeked.Some? <==> received.Some?)
      ensures peeked.Some? ==>
        IsPort(from) && |old(taken)[from]| < |sent[from]| && received == Some(sent[from][|old(taken)[from]|])
      ensures peeked.Some? && old(queues)[from].position < MESSAGE_OBJECTS ==> received == peeked
    {
      hide Agree, Valid, Contents, PortOk, Peeked, Packed;
      peeked := Peek(tid, -1);
      if peeked.None? {
        return None, None, -1;
      }
      var p := hint[tid];
      PeekIsNext(p, queues[p], sent[p], taken[p]);
      received, from := Receive(tid, -1);
    }

    /** set_port_flags for IPC_MASKED: one port, or with -1 all ports of the thread. */
    method SetMasked(tid: int, port: int, mask: bool) returns (rc: int)
      requires Sound() && tid in held
      modifies this`masked, this`hint
      ensures Sound() && (rc == 0 <==> port == -1 || (IsPort(port) && owner[port] != -1)) && (rc == 0 || rc == -1)
      ensures rc == -1 ==> masked == old(masked)
      ensures rc == 0 ==> hint == old(hint)[tid := -1]
      ensures rc == 0 ==>
        forall p :: 0 <= p < MAX_PORTS ==>
          masked[p] == if p == port || (port == -1 && owner[p] == tid) then mask else old(masked)[p]
    {
      hide Agree, PortOk, Packed;
      HeldArePorts(owner, held, tid);
      PackedAt(ports, held, tid);
      OwnedAreHeld(owner, held, tid);
      if port < -1 || port >= MAX_PORTS {
        return -1;
      }
      hint := hint[tid := -1];
      if port >= 0 {
        if owner[port] == -1 {
          return -1;
        }
        masked := masked[port := mask];
        return 0;
      }
      var i := 0;
      while i < MAX_PORTS && ports[tid][i] != -1
        invariant i <= |held[tid]| && |masked| == MAX_PORTS && hint == old(hint)[tid := -1]
        invariant forall p :: 0 <= p < MAX_PORTS ==> masked[p] == if p in held[tid][..i] then mask else old(masked)[p]
      {
        assert ports[tid][i] == held[tid][i] && held[tid][i] in held[tid];
        assert held[tid][..i + 1] == held[tid][..i] + [held[tid][i]];
        masked := masked[ports[tid][i] := mask];
        i := i + 1;
      }
      assert held[tid][..i] == held[tid];
      return 0;
    }

    /** drop_message with a hint that names a port: one message of that port is discarded. */
    method DropHinted(tid: int, port: int) returns (rc: int)
      requires Sound() && tid in held && IsPort(port) && hint[tid] == port
      modifies this`queues, this`taken, this`hint
      ensures Sound() && (rc == 0 || rc == -1)
      ensures hint == old(hint)[tid := -1]
      ensures rc == 0 <==> !Closed(port) && old(taken)[port] != sent[port]
      ensures rc == -1 ==> taken == old(taken)
      ensures rc == 0 ==>
        && |old(taken)[port]| < |sent[port]|
        && taken == old(taken)[port := old(taken)[port] + [sent[port][|old(taken)[port]|]]]
    {
      hide PortOk, Agree, Packed;
      AgreeFacts(owner, held);
      hint := hint[tid := -1];
      if Closed(port) {
        return -1;
      }
      var r := TakeFrom(port);
      return if r.None? then -1 else 0;
    }

    /** Entry `k` of the thread's array is its first unmasked port. */
    ghost predicate FirstOpen(tid: int, k: int)
      reads this`held, this`owner, this`masked
      requires tid in held
    {
      && 0 <= k < |held[tid]| && |owner| == |masked| == MAX_PORTS && IsPort(held[tid][k])
      && !Closed(held[tid][k]) && forall j :: 0 <= j < k ==> Closed(held[tid][j])
    }

    /**
      drop_message: the hinted port, or else the thread's first unmasked port and no other, even
      when that one is empty and a later one is not. `from` is the port looked at, or -1.
     */
    method Drop(tid: int) returns (rc: int, ghost from: int)
      requires Sound() && tid in held
      modifies this`queues, this`taken, this`hint
      ensures Sound() && (rc == 0 || rc == -1) && hint == old(hint)[tid := -1]
      ensures rc == -1 ==> taken == old(taken)
      ensures rc == 0 <==> IsPort(from) && !Closed(from) && old(taken)[from] != sent[from]
      ensures rc == 0 ==>
        && |old(taken)[from]| < |sent[from]|
        && taken == old(taken)[from := old(taken)[from] + [sent[from][|old(taken)[from]|]]]
      ensures IsPort(old(hint)[tid]) ==> from == old(hint)[tid]
      ensures !IsPort(old(hint)[tid]) && from == -1 ==> forall p :: p in held[tid] ==> Closed(p)
      ensures !IsPort(old(hint)[tid]) && from != -1 ==> exists k :: FirstOpen(tid, k) && held[tid][k] == from
      ensures !IsPort(old(hint)[tid]) ==>
        (rc == 0 <==> exists k :: FirstOpen(tid, k) && old(taken)[held[tid][k]] != sent[held[tid][k]])
    {
      hide PortOk, Agree;
      HeldArePorts(owner, held, tid);
      var port := hint[tid];
      if port >= 0 && port < MAX_PORTS {
        rc := DropHinted(tid, port);
        return rc, port;
      }
      hint := hint[tid := -1];
      var i := 0;
      while i < MAX_PORTS && ports[tid][i] != -1
        invariant i <= |held[tid]| && Sound() && taken == old(taken) && queues == old(queues)
        invariant forall j :: 0 <= j < i ==> Closed(held[tid][j])
      {
        port := ports[tid][i];
        assert port == held[tid][i] && port in held[tid];
        if !Closed(port) {
          var r := TakeFrom(port);
          assert FirstOpen(tid, i);
          return if r.None? then -1 else 0, port;
        }
        i := i + 1;
      }
      assert i == |held[tid]|;
      return -1, -1;
    }

    /**
      release_port: drains the messages of an unmasked port, frees its queue and closes the gap in its
      owner's array.
     */
    method ReleasePort(port: int) returns (rc: int)
      requires Sound()
      modifies this
      ensures Sound() && (rc == 0 || rc == -1)
      ensures rc == 0 <==> IsPort(port) && old(owner)[port] != -1
      ensures rc == -1 ==> owner == old(owner) && held == old(held) && taken == old(taken)
      ensures rc == 0 ==> owner == old(owner)[port := -1]
      ensures rc == 0 ==>
        && old(owner)[port] in old(held)
        && held == old(held)[old(owner)[port] := Without(old(held)[old(owner)[port]], port)]
      ensures rc == 0 && !old(masked)[port] ==> taken[port] == sent[port]
      ensures sent == old(sent) && |taken| == |old(taken)|
      ensures forall p :: 0 <= p < |taken| && p != port ==> taken[p] == old(taken)[p]
    {
      hide Agree, PortOk, Packed;
      AgreeFacts(owner, held);
      if port < 0 || port >= MAX_PORTS || owner[port] == -1 {
        return -1;
      }
      var target := owner[port];
      ReleaseAgrees(owner, held, port);
      DrainPort(target, port);
      CloseGap(target, port);
      return 0;
    }

    /** The dropping loop of release_port, which ends with the port empty unless it is masked. */
    method DrainPort(target: int, port: int)
      requires Sound() && IsPort(port) && |owner| == MAX_PORTS && owner[port] != -1 && target in held
      modifies this`queues, this`taken, this`hint
      ensures Sound() && (masked[port] || taken[port] == sent[port])
      ensures |taken| == |old(taken)| && forall p :: 0 <= p < |taken| && p != port ==> taken[p] == old(taken)[p]
    {
      hide Agree, PortOk, Packed;
      hint := hint[target := port];
      var dropped := DropHinted(target, port);
      while dropped >= 0
        invariant Sound() && |taken| == MAX_PORTS && (dropped == 0 || dropped == -1)
        invariant dropped == 0 ==> |taken[port]| <= |sent[port]|
        invariant dropped == -1 ==> masked[port] || taken[port] == sent[port]
        invariant forall p :: 0 <= p < MAX_PORTS && p != port ==> taken[p] == old(taken)[p]
        decreases dropped, |sent[port]| - |taken[port]|
      {
        hint := hint[target := port];
        dropped := DropHinted(target, port);
      }
    }

    /** The tail of release_port. */
    method CloseGap(target: int, port: int)
      requires Sound() && IsPort(port) && |owner| == MAX_PORTS && owner[port] == target != -1
      requires target in held && Agree(owner[port := -1], held[target := Without(held[target], port)])
      modifies this`owner, this`masked, this`queues, this`ports, this`held
      ensures Sound() && owner == old(owner)[port := -1]
      ensures held == old(held)[target := Without(old(held)[target], port)]
    {
      hide Agree, PortOk, Packed, Pad;
      HeldArePorts(owner, held, target);
      PackedAt(ports, held, target);
      owner, masked, queues := owner[port := -1], masked[port := false], queues[port := Empty()];
      var s := Compact(ports[target], port, held[target]);
      PackedUpdate(ports, held, target, Without(held[target], port));
      ports := ports[target := s];
      held := held[target := Without(held[target], port)];
    }

    /** One round of release_thread_ports: the first port of the thread's array is released. */
    method ReleaseFirst(tid: int)
      requires Sound() && tid in held && held[tid] != []
      modifies this
      ensures Sound() && tid in held && |held[tid]| == |old(held)[tid]| - 1 && held.Keys == old(held).Keys
      ensures forall t :: t in old(held) && t != tid ==> held[t] == old(held)[t]
      ensures |old(owner)| == MAX_PORTS && IsPort(old(held)[tid][0])
      ensures old(owner)[old(held)[tid][0]] == tid && owner == old(owner)[old(held)[tid][0] := -1]
    {
      hide PortOk, Agree, Packed, Without, NoDup;
      HeldArePorts(owner, held, tid);
      PackedAt(ports, held, tid);
      var port := ports[tid][0];
      assert port == held[tid][0] && port in held[tid];
      WithoutLength(held[tid], port);
      var rc := ReleasePort(port);
    }

    /** The thread's array is empty. */
    method NoPorts(tid: int) returns (b: bool)
      requires Sound() && tid in held
      ensures b <==> held[tid] == []
    {
      hide PortOk, Agree, Packed;
      HeldArePorts(owner, held, tid);
      PackedAt(ports, held, tid);
      b := ports[tid][0] == -1;
      assert held[tid] != [] ==> ports[tid][0] == held[tid][0] && held[tid][0] in held[tid];
    }

    /** release_thread_ports: ends with the thread owning no port, having released each of them once. */
    method ReleaseThreadPorts(tid: int) returns (count: nat)
      requires Sound() && tid in held
      modifies this
      ensures Sound() && tid in held && held[tid] == [] && count == |old(held)[tid]|
      ensures forall t :: t in old(held) && t != tid ==> t in held && held[t] == old(held)[t]
      ensures |owner| == |old(owner)|
      ensures forall p :: 0 <= p < |owner| ==> owner[p] == (if old(owner)[p] == tid then -1 else old(owner)[p])
    {
      hide PortOk, Agree, Packed, Without;
      AgreeFacts(owner, held);
      count := 0;
      var done := NoPorts(tid);
      while !done
        invariant Sound() && tid in held && held.Keys == old(held).Keys && (done <==> held[tid] == [])
        invariant count + |held[tid]| == |old(held)[tid]| && |owner| == |old(owner)| == MAX_PORTS
        invariant forall t :: t in old(held) && t != tid ==> held[t] == old(held)[t]
        invariant forall p :: 0 <= p < MAX_PORTS ==>
          owner[p] == old(owner)[p] || (old(owner)[p] == tid && owner[p] == -1)
        decreases |held[tid]|
      {
        ReleaseFirst(tid);
        count := count + 1;
        done := NoPorts(tid);
      }
      OwnedAreHeld(owner, held, tid);
    }
  }

  /** A thread with two empty ports. */
  method TwoPorts() returns (p: Process)
    ensures fresh(p) && p.Sound() && 0 in p.held && p.held[0] == [0, 1] && p.hint[0] == -1
    ensures p.owner[0] == 0 == p.owner[1] && !p.masked[0] && !p.masked[1]
    ensures p.sent[0] == p.taken[0] == p.sent[1] == p.taken[1] == []
  {
    hide PortOk, Agree, Packed;
    p := new Process({0});
    assert 0 in p.held && p.held[0] == [];
    AgreeFacts(p.owner, p.held);
    var rc := p.CreatePort(0, 0, true);
    assert rc == 0 && p.held[0] == [0];
    rc := p.CreatePort(1, 0, true);
    AgreeFacts(p.owner, p.held);
  }

  /** A message waits behind an empty port: the drop fails and the message is still there. */
  method DropMisses(m: Message) returns (rc: int, r: Option<Message>)
    requires m.destPort == 1
    ensures rc == -1 && r == Some(m)
  {
    hide PortOk, Agree, Packed;
    var p := TwoPorts();
    AgreeFacts(p.owner, p.held);
    rc := p.Send(m, true);
    assert p.FirstOpen(0, 0);
    ghost var from;
    rc, from := p.Drop(0);
    assert p.taken[1] == [] && p.sent[1] == [m];
    r, from := p.Receive(0, 1);
  }

  /** The thread of a port has it in its array. */
  lemma OwnedAreHeld(owner: seq<int>, held: map<int, seq<int>>, t: int)
    requires Agree(owner, held) && t in held
    ensures |owner| == MAX_PORTS && forall p :: 0 <= p < MAX_PORTS ==> (owner[p] == t <==> p in held[t])
  {
  }

  lemma WaitingIffUntaken(p: int, q: MessageQueue, sent: seq<Message>, taken: seq<Message>)
    requires PortOk(p, q, sent, taken)
    ensures Valid(q, MESSAGE_OBJECTS) && q.position <= q.last && (q.position != q.last <==> sent != taken)
  {
    ItemsLength(q, MESSAGE_OBJECTS);
    hide Contents;
  }

  lemma PeekIsNext(p: int, q: MessageQueue, sent: seq<Message>, taken: seq<Message>)
    requires PortOk(p, q, sent, taken) && Valid(q, MESSAGE_OBJECTS) && q.position < q.last
    ensures q.position < MESSAGE_OBJECTS ==> |taken| < |sent| && Peeked(q) == sent[|taken|]
  {
    hide Valid, Contents, Taken, Peeked;
    PeekThenReceive(q);
    PortAfterTake(p, q, sent, taken);
  }

  lemma AgreeFacts(owner: seq<int>, held: map<int, seq<int>>)
    requires Agree(owner, held)
    ensures |owner| == MAX_PORTS
    ensures forall t :: t in held ==> t >= 0 && |held[t]| <= MAX_PORTS && -1 !in held[t]
  {
    forall t | t in held ensures -1 !in held[t] {
      assert !IsPort(-1);
    }
  }

  lemma OwnersExist(owner: seq<int>, held: map<int, seq<int>>)
    requires Agree(owner, held)
    ensures forall p :: 0 <= p < MAX_PORTS && owner[p] != -1 ==> owner[p] >= 0 && owner[p] in held
  {
  }

  lemma HeldArePorts(owner: seq<int>, held: map<int, seq<int>>, t: int)
    requires Agree(owner, held) && t in held
    ensures |owner| == MAX_PORTS && |held[t]| <= MAX_PORTS && NoDup(held[t]) && -1 !in held[t]
    ensures forall p :: p in held[t] ==> IsPort(p) && owner[p] == t
    ensures t >= 0
  {
    forall p | p in held[t] ensures IsPort(p) && owner[p] == t {
    }
  }

  lemma EmptyPort(p: int)
    ensures PortOk(p, Empty(), [], [])
  {
  }
}
