/**
  Port ownership of kernel/src/ports.c: the owner recorded in each entry of a process's `ipc` table
  and the fixed array of port numbers kept by each thread.
 */
module Ports {
  import opened Bits
  import opened Seqs

  const MAX_PORTS: nat := 1024

  /** The array that holds a list of ports: the list, then -1 to the end. */
  function Pad(l: seq<int>): (s: seq<int>)
    requires |l| <= MAX_PORTS
    ensures |s| == MAX_PORTS
    ensures forall i :: 0 <= i < |l| ==> s[i] == l[i]
    ensures forall i :: |l| <= i < MAX_PORTS ==> s[i] == -1
  {
    l + seq(MAX_PORTS - |l|, _ => -1)
  }

  predicate IsPort(p: int) { 0 <= p < MAX_PORTS }

  /**
    `owner[p]` is the thread that owns port p, or -1; `held[t]` lists the ports of thread t. The two
    describe the same relation: each list is duplicate-free and holds exactly the thread's ports.
   */
  ghost predicate Agree(owner: seq<int>, held: map<int, seq<int>>) {
    && |owner| == MAX_PORTS
    && (forall t :: t in held ==> t >= 0 && NoDup(held[t]) && |held[t]| <= MAX_PORTS)
    && (forall p :: 0 <= p < MAX_PORTS ==> owner[p] == -1 || owner[p] in held)
    && (forall t, p :: t in held ==> (p in held[t] <==> IsPort(p) && owner[p] == t))
  }

  /** Every thread's array is the packed form of its list. */
  ghost predicate Packed(ports: map<int, seq<int>>, held: map<int, seq<int>>) {
    ports.Keys == held.Keys && forall t :: t in held ==> |held[t]| <= MAX_PORTS && ports[t] == Pad(held[t])
  }

  lemma PackedAt(ports: map<int, seq<int>>, held: map<int, seq<int>>, t: int)
    requires Packed(ports, held) && t in held
    ensures t in ports && |held[t]| <= MAX_PORTS && ports[t] == Pad(held[t])
  {
  }

  lemma PackedUpdate(ports: map<int, seq<int>>, held: map<int, seq<int>>, t: int, l: seq<int>)
    requires Packed(ports, held) && t in held && |l| <= MAX_PORTS
    ensures Packed(ports[t := Pad(l)], held[t := l])
  {
  }

  lemma PadAppend(l: seq<int>, p: int)
    requires |l| < MAX_PORTS
    ensures Pad(l)[|l| := p] == Pad(l + [p])
  {
  }

  function PortSet(n: nat): (s: set<int>)
    ensures |s| == n && forall p :: p in s <==> 0 <= p < n
  {
    if n == 0 then {} else PortSet(n - 1) + {n - 1}
  }

  /** While some port is free, no thread's array is full, so create_port finds a slot. */
  lemma RoomForPort(owner: seq<int>, held: map<int, seq<int>>, t: int, port: int)
    requires Agree(owner, held) && t in held && IsPort(port) && owner[port] == -1
    ensures |held[t]| < MAX_PORTS && port !in held[t]
  {
    var all := PortSet(MAX_PORTS);
    hide PortSet;
    forall p | p in held[t] ensures p in all - {port} {
      assert IsPort(p) && owner[p] == t;
    }
    Pigeonhole(held[t], all - {port});
  }

  lemma CreateAgrees(owner: seq<int>, held: map<int, seq<int>>, t: int, port: int)
    requires Agree(owner, held) && t in held && IsPort(port) && owner[port] == -1
    ensures Agree(owner[port := t], held[t := held[t] + [port]])
  {
    RoomForPort(owner, held, t, port);
    var owner', held' := owner[port := t], held[t := held[t] + [port]];
    forall u, p | u in held' ensures p in held'[u] <==> IsPort(p) && owner'[p] == u {
      assert p in held[u] <==> IsPort(p) && owner[p] == u;
    }
  }

  lemma ReleaseAgrees(owner: seq<int>, held: map<int, seq<int>>, port: int)
    requires Agree(owner, held) && IsPort(port) && owner[port] != -1
    ensures var t := owner[port];
            t in held && port in held[t] && Agree(owner[port := -1], held[t := Without(held[t], port)])
  {
    var t := owner[port];
    assert port in held[t];
    WithoutDistinct(held[t], port);
    WithoutLength(held[t], port);
    var owner', held' := owner[port := -1], held[t := Without(held[t], port)];
    forall u, p | u in held' ensures p in held'[u] <==> IsPort(p) && owner'[p] == u {
      assert p in held[u] <==> IsPort(p) && owner[p] == u;
    }
  }

  /** The first loop of create_port: the first free entry of the array. */
  method FirstFree(s: seq<int>, ghost l: seq<int>) returns (i: nat)
    requires |l| < MAX_PORTS && s == Pad(l) && -1 !in l
    ensures i == |l|
  {
    i := 0;
    while s[i] != -1
      invariant i <= |l|
      decreases |l| - i
    {
      assert i < |l|;
      i := i + 1;
    }
  }

  /** The compaction loop of release_port: closes the gap left by `port`, in one pass over the array. */
  method Compact(ports: seq<int>, port: int, ghost l: seq<int>) returns (s: seq<int>)
    requires |l| <= MAX_PORTS && ports == Pad(l) && NoDup(l) && -1 !in l && port != -1
    ensures |Without(l, port)| <= MAX_PORTS && s == Pad(Without(l, port))
  {
    hide Without;
    s := ports;
    var found := 0;
    var i := 0;
    ghost var k := |l|;
    while i < MAX_PORTS
      invariant i <= MAX_PORTS && |s| == MAX_PORTS
      invariant k >= 0
      invariant found == 0 ==> k == |l| && s == ports && i <= |l| && port !in l[..i]
      invariant found != 0 ==> found == 1 && 0 <= k < i && k < |l| && l[k] == port && port !in l[..k] && i <= |l|
      invariant found != 0 ==> forall j :: 0 <= j < i ==> s[j] == if j < k then l[j] else RightOf(ports, j)
      invariant found != 0 ==> forall j :: i <= j < MAX_PORTS ==> s[j] == ports[j]
    {
      if s[i] == -1 {
        break;
      }
      assert i < |l| && s[i] == l[i];
      if s[i] == port {
        s := s[i := -1];
        found, k := 1, i;
      }
      if found == 1 && i == MAX_PORTS - 1 {
        s := s[i := -1];
      } else {
        s := s[i := s[i + found]];
      }
      i := i + 1;
    }
    Compacted(l, port, ports, s, found, k, i);
  }

  /** The entry one to the right, with -1 beyond the end. */
  function RightOf(s: seq<int>, j: int): int
    requires 0 <= j < |s|
  {
    if j + 1 < |s| then s[j + 1] else -1
  }

  lemma Compacted(l: seq<int>, port: int, ports: seq<int>, s: seq<int>, found: int, k: nat, i: nat)
    requires |l| <= MAX_PORTS && ports == Pad(l) && |s| == MAX_PORTS && i <= |l|
    requires i == MAX_PORTS || ports[i] == -1
    requires -1 !in l
    requires found == 0 ==> s == ports && port !in l[..i]
    requires found != 0 ==> k < i && l[k] == port && port !in l[..k]
    requires found != 0 ==> forall j :: 0 <= j < i ==> s[j] == if j < k then l[j] else RightOf(ports, j)
    requires found != 0 ==> forall j :: i <= j < MAX_PORTS ==> s[j] == ports[j]
    ensures |Without(l, port)| <= MAX_PORTS && s == Pad(Without(l, port))
  {
    assert i == |l|;
    if found == 0 {
      assert l[..i] == l;
    } else {
      WithoutIsRemoveAt(l, k);
    }
  }
}
