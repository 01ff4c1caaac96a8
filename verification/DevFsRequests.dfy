/**
  The table of outstanding requests of the device file system (devices/devfs/state.c) and the
  forwarding of driver responses (devices/devfs/response.c).
 */
module DevFsRequests {
  import opened Bits
  import opened Arith

  const STATES: nat := 1024

  /** struct state_information; Idle is state -1. */
  datatype Slot = Idle | Waiting(pid: int, port: int, dest: int)

  /** A request that was dispatched: who asked and which process must answer. */
  datatype Asked = Asked(pid: int, port: int, dest: int)

  /** A reply that was sent: by the driver process, or by devfs itself when the request could not be delivered. */
  datatype Answer = Answer(serial: nat, via: Option<int>, pid: int, port: int)

  /** History: all requests in order, all replies in order, and the request that each slot holds. */
  datatype Book = Book(asked: seq<Asked>, answers: seq<Answer>, serial: seq<nat>)

  ghost predicate Answered(b: Book, q: nat) { exists k :: 0 <= k < |b.answers| && b.answers[k].serial == q }

  ghost predicate Pending(slots: seq<Slot>, b: Book, q: nat) {
    exists i :: 0 <= i < |slots| && i < |b.serial| && slots[i].Waiting? && b.serial[i] == q
  }

  /** A reply goes to the requester and, unless devfs reports a failed delivery, comes from the device's process. */
  predicate Matches(a: Asked, r: Answer) {
    r.pid == a.pid && r.port == a.port && (r.via == None || r.via == Some(a.dest))
  }

  /** Waiting slots hold different unanswered requests, with their requester and driver. */
  ghost predicate SlotsOk(slots: seq<Slot>, b: Book) {
    && |slots| == |b.serial| == STATES
    && (forall i :: 0 <= i < STATES && slots[i].Waiting? ==>
          b.serial[i] < |b.asked| && b.asked[b.serial[i]] == Asked(slots[i].pid, slots[i].port, slots[i].dest))
    && (forall i :: 0 <= i < STATES && slots[i].Waiting? ==> !Answered(b, b.serial[i]))
    && (forall i, j :: 0 <= i < j < STATES && slots[i].Waiting? && slots[j].Waiting? ==> b.serial[i] != b.serial[j])
  }

  /** Every reply matches its request, and no request has two. */
  ghost predicate AnswersOk(b: Book) {
    && (forall k :: 0 <= k < |b.answers| ==>
          b.answers[k].serial < |b.asked| && Matches(b.asked[b.answers[k].serial], b.answers[k]))
    && (forall k, l :: 0 <= k < l < |b.answers| ==> b.answers[k].serial != b.answers[l].serial)
  }

  ghost predicate NoneLost(slots: seq<Slot>, b: Book) {
    forall q: nat :: q < |b.asked| ==> Answered(b, q) || Pending(slots, b, q)
  }

  ghost predicate BookOk(slots: seq<Slot>, b: Book) {
    SlotsOk(slots, b) && AnswersOk(b) && NoneLost(slots, b)
  }

  function Ask(b: Book, i: nat, a: Asked): Book
    requires i < |b.serial|
  {
    b.(asked := b.asked + [a], serial := b.serial[i := |b.asked|])
  }

  function Reply(b: Book, i: nat, via: Option<int>, s: Slot): Book
    requires i < |b.serial| && s.Waiting?
  {
    b.(answers := b.answers + [Answer(b.serial[i], via, s.pid, s.port)])
  }

  lemma AskStep(slots: seq<Slot>, b: Book, i: nat, s: Slot)
    requires BookOk(slots, b) && i < STATES && slots[i].Idle? && s.Waiting?
    ensures BookOk(slots[i := s], Ask(b, i, Asked(s.pid, s.port, s.dest)))
  {
    var slots', b' := slots[i := s], Ask(b, i, Asked(s.pid, s.port, s.dest));
    forall q: nat ensures Answered(b', q) == Answered(b, q) {
    }
    forall k | 0 <= k < STATES && slots'[k].Waiting? ensures !Answered(b', b'.serial[k]) {
      if k != i {
        assert slots[k].Waiting?;
      }
    }
    forall q: nat | q < |b'.asked| ensures Answered(b', q) || Pending(slots', b', q) {
      if q == |b.asked| {
        assert slots'[i].Waiting? && b'.serial[i] == q;
      } else if !Answered(b, q) {
        PendingKept(slots, slots', b, b', i, q);
      }
    }
  }

  lemma PendingKept(slots: seq<Slot>, slots': seq<Slot>, b: Book, b': Book, i: nat, q: nat)
    requires |slots| == |slots'| == |b.serial| == |b'.serial| && i < |slots|
    requires forall k :: 0 <= k < |slots| && k != i ==> slots'[k] == slots[k] && b'.serial[k] == b.serial[k]
    requires Pending(slots, b, q) && (slots[i].Waiting? ==> b.serial[i] != q)
    ensures Pending(slots', b', q)
  {
    var k :| 0 <= k < |slots| && slots[k].Waiting? && b.serial[k] == q;
    assert slots'[k].Waiting? && b'.serial[k] == q;
  }

  lemma AnsweredGrows(b: Book, i: nat, via: Option<int>, s: Slot, q: nat)
    requires i < |b.serial| && s.Waiting?
    ensures Answered(Reply(b, i, via, s), q) <==> Answered(b, q) || q == b.serial[i]
  {
    var b' := Reply(b, i, via, s);
    assert b'.answers[|b.answers|].serial == b.serial[i];
    if Answered(b, q) {
      var k :| 0 <= k < |b.answers| && b.answers[k].serial == q;
      assert b'.answers[k].serial == q;
    }
  }

  lemma ReplyStep(slots: seq<Slot>, b: Book, i: nat, via: Option<int>)
    requires BookOk(slots, b) && i < STATES && slots[i].Waiting? && (via == None || via == Some(slots[i].dest))
    ensures BookOk(slots[i := Idle], Reply(b, i, via, slots[i]))
  {
    var slots', b' := slots[i := Idle], Reply(b, i, via, slots[i]);
    assert AnswersOk(b') by {
      forall k | 0 <= k < |b.answers| ensures b.answers[k].serial != b.serial[i] {
        assert !Answered(b, b.serial[i]);
      }
    }
    hide Reply, AnswersOk;
    assert b'.serial == b.serial && b'.asked == b.asked by {
      ReplyFrame(b, i, via, slots[i]);
    }
    forall k | 0 <= k < STATES && slots'[k].Waiting? ensures !Answered(b', b'.serial[k]) {
      AnsweredGrows(b, i, via, slots[i], b.serial[k]);
    }
    forall q: nat | q < |b'.asked| ensures Answered(b', q) || Pending(slots', b', q) {
      AnsweredGrows(b, i, via, slots[i], q);
      if !Answered(b, q) && q != b.serial[i] {
        PendingKept(slots, slots', b, b', i, q);
      }
    }
  }

  lemma ReplyFrame(b: Book, i: nat, via: Option<int>, s: Slot)
    requires i < |b.serial| && s.Waiting?
    ensures Reply(b, i, via, s).serial == b.serial && Reply(b, i, via, s).asked == b.asked
  {
  }

  /** A dispatched request has exactly one reply and no slot, or exactly one slot and no reply. */
  lemma OneReplyOrOneSlot(slots: seq<Slot>, b: Book, q: nat)
    requires BookOk(slots, b) && q < |b.asked|
    ensures Answered(b, q) <==> !Pending(slots, b, q)
    ensures forall k, l | 0 <= k < |b.answers| && 0 <= l < |b.answers| ::
              b.answers[k].serial == q == b.answers[l].serial ==> k == l
    ensures forall i, j | 0 <= i < STATES && 0 <= j < STATES && slots[i].Waiting? && slots[j].Waiting? ::
              b.serial[i] == q == b.serial[j] ==> i == j
    ensures forall k :: 0 <= k < |b.answers| && b.answers[k].serial == q ==> Matches(b.asked[q], b.answers[k])
  {
  }

  function Cyclic(from: nat, d: nat): (i: nat)
    ensures i < STATES
  {
    (from + d) % STATES
  }

  lemma CyclicNext(from: nat, d: nat)
    ensures (Cyclic(from, d) + 1) % STATES == Cyclic(from, d + 1)
  {
  }

  /** The rotation reaches every slot within one round. */
  lemma CyclicReaches(from: nat, k: nat)
    requires from < STATES && k < STATES
    ensures exists d: nat :: d < STATES && Cyclic(from, d) == k
  {
    var d := if k >= from then k - from else k + STATES - from;
    assert Cyclic(from, d) == k;
  }

  class RequestTable {
    const slots: array<Slot>
    var requestId: nat
    ghost var book: Book

    ghost predicate Valid()
      reads this, slots
    {
      slots.Length == |book.serial| == STATES && requestId < STATES && BookOk(slots[..], book)
    }

    /** init_states. */
    constructor ()
      ensures Valid() && fresh(slots) && book.asked == [] && forall i :: 0 <= i < STATES ==> slots[i].Idle?
    {
      slots := new Slot[STATES](_ => Idle);
      requestId, book := 0, Book([], [], seq(STATES, _ => 0));
    }

    /** get_next_request_id: the first idle slot in rotation order; the search ends when some slot is idle. */
    method NextId() returns (id: nat)
      requires Valid() && exists i :: 0 <= i < STATES && slots[i].Idle?
      modifies this`requestId
      ensures Valid() && id < STATES && slots[id].Idle? && requestId == (id + 1) % STATES
      ensures exists d: nat :: d < STATES && id == Cyclic(old(requestId), d) &&
                forall e: nat :: e < d ==> slots[Cyclic(old(requestId), e)].Waiting?
    {
      hide BookOk;
      ghost var from := requestId;
      ghost var k: nat :| k < STATES && slots[k].Idle?;
      CyclicReaches(from, k);
      ghost var far: nat :| far < STATES && Cyclic(from, far) == k;
      ghost var d: nat := 0;
      while slots[requestId].Waiting?
        invariant requestId < STATES && requestId == Cyclic(from, d) && d <= far
        invariant forall e: nat :: e < d ==> slots[Cyclic(from, e)].Waiting?
        decreases far - d
      {
        CyclicNext(from, d);
        requestId := (requestId + 1) % STATES;
        d := d + 1;
      }
      id := requestId;
      requestId := (requestId + 1) % STATES;
    }

    /** insert_state. */
    method Insert(pid: int, port: int, dest: int) returns (id: nat)
      requires Valid() && exists i :: 0 <= i < STATES && slots[i].Idle?
      modifies this, slots
      ensures Valid() && id < STATES && old(slots[..])[id].Idle?
      ensures slots[..] == old(slots[..])[id := Waiting(pid, port, dest)]
      ensures slots[..] == Step(old(slots[..]), Request(id, pid, port, dest))
      ensures requestId == (id + 1) % STATES
      ensures exists d: nat :: d < STATES && id == Cyclic(old(requestId), d) &&
                forall e: nat :: e < d ==> old(slots[..])[Cyclic(old(requestId), e)].Waiting?
      ensures book == Ask(old(book), id, Asked(pid, port, dest))
    {
      hide BookOk;
      id := NextId();
      AskStep(slots[..], book, id, Waiting(pid, port, dest));
      slots[id] := Waiting(pid, port, dest);
      book := Ask(book, id, Asked(pid, port, dest));
      assert slots[..] == old(slots[..])[id := Waiting(pid, port, dest)];
    }

    /** remove_state: gives the requester of a waiting request to its own driver alone; `via` is who replies. */
    method Remove(id: nat, dest: int, ghost via: Option<int>) returns (r: Option<(int, int)>)
      requires Valid() && id < STATES && (via == None || via == Some(dest))
      modifies this`book, slots
      ensures Valid() && (r.Some? <==> old(slots[id]).Waiting? && old(slots[id]).dest == dest)
      ensures r.None? ==> slots[..] == old(slots[..]) && book == old(book)
      ensures r.Some? ==>
        r.value == (old(slots[id]).pid, old(slots[id]).port) && slots[..] == old(slots[..])[id := Idle]
      ensures r.Some? ==> book == Reply(old(book), id, via, old(slots[id]))
    {
      hide BookOk;
      if slots[id].Waiting? && slots[id].dest == dest {
        r := Some((slots[id].pid, slots[id].port));
        ReplyStep(slots[..], book, id, via);
        book := Reply(book, id, via, slots[id]);
        slots[id] := Idle;
        assert slots[..] == old(slots[..])[id := Idle];
      } else {
        r := None;
      }
    }

    /** process_response: where the response of process `pid` is forwarded, if anywhere. */
    method Respond(pid: int, id: nat) returns (r: Option<(int, int)>)
      requires Valid() && id < STATES
      modifies this`book, slots
      ensures Valid() && book.asked == old(book).asked
      ensures r.Some? <==> old(slots[id]).Waiting? && old(slots[id]).dest == pid
      ensures r.Some? ==>
        r.value == (old(slots[id]).pid, old(slots[id]).port) && slots[..] == old(slots[..])[id := Idle]
      ensures slots[..] == Step(old(slots[..]), Response(pid, id))
      ensures r.Some? ==> book == Reply(old(book), id, Some(pid), old(slots[id]))
      ensures r.None? ==> book == old(book) && slots[..] == old(slots[..])
      ensures r.Some? ==> var q := old(book).serial[id];
        && q < |book.asked| && book.asked[q] == Asked(r.value.0, r.value.1, pid)
        && !Answered(old(book), q) && Answered(book, q) && !Pending(slots[..], book, q)
    {
      hide BookOk, SlotsOk;
      ghost var b, was := book, slots[..];
      r := Remove(id, pid, Some(pid));
      if r.Some? {
        ghost var q := b.serial[id];
        WaitingFacts(was, b, id);
        AnsweredGrows(b, id, Some(pid), was[id], q);
        OneReplyOrOneSlot(slots[..], book, q);
      }
    }
  }

  // ---------- A request from its dispatch to its answer ----------

  /** What happens to the table: a request is put into an idle slot, or a process responds to an id. */
  datatype Event = Request(id: nat, pid: int, port: int, dest: int) | Response(who: int, id: nat)

  function Step(slots: seq<Slot>, e: Event): (r: seq<Slot>)
    requires e.id < |slots|
  {
    match e
    case Request(id, pid, port, dest) => if slots[id].Idle? then slots[id := Waiting(pid, port, dest)] else slots
    case Response(who, id) => if slots[id].Waiting? && slots[id].dest == who then slots[id := Idle] else slots
  }

  ghost predicate IdsIn(events: seq<Event>, n: nat) { forall k :: 0 <= k < |events| ==> events[k].id < n }

  function Run(slots: seq<Slot>, events: seq<Event>): (r: seq<Slot>)
    requires IdsIn(events, |slots|)
    ensures |r| == |slots|
  {
    if events == [] then slots else Step(Run(slots, events[..|events| - 1]), events[|events| - 1])
  }

  /**
    Whatever is dispatched and whoever responds, a waiting request stays in its slot with its requester
    if and only if its own driver has not responded to it.
   */
  lemma {:induction false} WaitsForItsDriver(slots: seq<Slot>, events: seq<Event>, id: nat)
    requires IdsIn(events, |slots|) && id < |slots| && slots[id].Waiting?
    ensures Response(slots[id].dest, id) !in events ==> Run(slots, events)[id] == slots[id]
    ensures (forall e :: e in events && e.id == id ==> e.Response?) && Response(slots[id].dest, id) in events ==>
              Run(slots, events)[id].Idle?
  {
    if events != [] {
      var n := |events| - 1;
      assert events == events[..n] + [events[n]];
      WaitsForItsDriver(slots, events[..n], id);
    }
  }

  /**
    A request is dispatched, responses to other requests and by other processes come in, and then its driver
    responds: the answer goes to the process that asked, and the request is answered.
   */
  method RoundTrip(t: RequestTable, pid: int, port: int, dest: int, others: seq<(int, nat)>) returns (r: Option<(int, int)>)
    requires t.Valid() && (exists i :: 0 <= i < STATES && t.slots[i].Idle?)
    requires forall k :: 0 <= k < |others| ==> others[k].1 < STATES
    modifies t, t.slots
    ensures t.Valid() && r == Some((pid, port))
    ensures |t.book.asked| == |old(t.book.asked)| + 1 && t.book.asked[|old(t.book.asked)|] == Asked(pid, port, dest)
    ensures Answered(t.book, |old(t.book.asked)|)
  {
    hide BookOk;
    var id := t.Insert(pid, port, dest);
    ghost var q := |old(t.book.asked)|;
    var k := 0;
    while k < |others|
      invariant 0 <= k <= |others| && t.Valid() && t.slots[id] == Waiting(pid, port, dest) && t.book.serial[id] == q
      invariant t.book.asked == old(t.book.asked) + [Asked(pid, port, dest)]
    {
      if others[k] != (dest, id) {
        var away := t.Respond(others[k].0, others[k].1);
      }
      k := k + 1;
    }
    r := t.Respond(dest, id);
  }

  lemma WaitingFacts(slots: seq<Slot>, b: Book, i: nat)
    requires BookOk(slots, b) && i < STATES && slots[i].Waiting?
    ensures b.serial[i] < |b.asked| && b.asked[b.serial[i]] == Asked(slots[i].pid, slots[i].port, slots[i].dest)
    ensures !Answered(b, b.serial[i])
  {
  }
}
