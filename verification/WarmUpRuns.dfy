/** Whole runs of one node: every interleaving of messages, merges, broadcasts, joins and leaves. */
module WarmUpRuns {
  import opened Bytes
  import opened ByteOrder
  import opened Options
  import opened PresenceCodec
  import opened PresenceTable
  import opened WarmUpMap
  import opened StateTransfer
  import opened Rebroadcast

  datatype Event =
    | Message(message: seq<byte>)
    | MergeState(state: seq<byte>)
    | Broadcast(limit: nat)
    | Join(id: U128, addr: U32)
    | Leave(id: U128)

  function EvictFrom(nodes: PresenceSet, id: U128, addr: U32): (left: PresenceSet)
  {
    map a | a in nodes && !(a == addr && nodes[a].id != id) :: nodes[a]
  }

  /** A joining node evicts whoever held its address under another id. */
  function Evict(t: Table, id: U128, addr: U32): (t': Table)
  {
    map code | code in t :: EvictFrom(t[code], id, addr)
  }

  function ForgetFrom(nodes: PresenceSet, id: U128): (left: PresenceSet)
  {
    map a | a in nodes && nodes[a].id != id :: nodes[a]
  }

  function Forget(t: Table, id: U128): (t': Table)
  {
    map code | code in t :: ForgetFrom(t[code], id)
  }

  /** A join removes the presences at its address under another id, and nothing else. */
  lemma EvictedExactly(t: Table, id: U128, addr: U32)
    ensures Evict(t, id, addr).Keys == t.Keys
    ensures forall code, a, p ::
              Lookup(Evict(t, id, addr), code, a) == Some(p) <==>
              Lookup(t, code, a) == Some(p) && !(a == addr && p.id != id)
  {
  }

  /** A leave removes the presences with its id, and nothing else. */
  lemma ForgottenExactly(t: Table, id: U128)
    ensures Forget(t, id).Keys == t.Keys
    ensures forall code, a, p ::
              Lookup(Forget(t, id), code, a) == Some(p) <==> Lookup(t, code, a) == Some(p) && p.id != id
  {
  }

  function Step(s: Node, event: Event, framing: Framing): (s': Node)
  {
    match event
    case Message(message) => Receive(s, message)
    case MergeState(state) => Receive(s, state)
    case Broadcast(limit) =>
      var rs := TableRecords(s.queue);
      s.(queue := FromRecords(rs[SentCount(rs, limit, framing)..]))
    case Join(id, addr) => s.(table := Evict(s.table, id, addr))
    case Leave(id) => s.(table := Forget(s.table, id))
  }

  function Emitted(s: Node, event: Event, framing: Framing): (rs: seq<Record>)
  {
    if event.Broadcast? then
      var rs := TableRecords(s.queue);
      rs[..SentCount(rs, event.limit, framing)]
    else []
  }

  function Received(event: Event): (rs: seq<Record>)
  {
    match event
    case Message(message) => Records(message)
    case MergeState(state) => Records(state)
    case _ => []
  }

  /** A run: its events, latest last. */
  function Run(events: seq<Event>, framing: Framing): (s: Node)
  {
    if events == [] then EMPTY else Step(Run(events[..|events| - 1], framing), events[|events| - 1], framing)
  }

  function AllEmitted(events: seq<Event>, framing: Framing): (rs: seq<Record>)
  {
    if events == [] then [] else
    var front := events[..|events| - 1];
    AllEmitted(front, framing) + Emitted(Run(front, framing), events[|events| - 1], framing)
  }

  function AllReceived(events: seq<Event>): (rs: seq<Record>)
  {
    if events == [] then [] else AllReceived(events[..|events| - 1]) + Received(events[|events| - 1])
  }

  // ---- the invariant ----

  ghost predicate QueueMatchesTable(s: Node)
  {
    forall code, addr ::
      Lookup(s.queue, code, addr).Some? && Lookup(s.table, code, addr).Some? ==>
        Lookup(s.queue, code, addr) == Lookup(s.table, code, addr)
  }

  /** Every entry of the table is still queued as it is, or has gone out as it is. */
  ghost predicate HandedOn(s: Node, emitted: seq<Record>)
  {
    forall r :: Holds(s.table, r) ==>
                  Holds(s.queue, r) || r in emitted
  }

  /** Nothing is stored, queued or sent that did not arrive, byte for byte, in some message. */
  ghost predicate Authentic(s: Node, emitted: seq<Record>, received: seq<Record>)
  {
    && (forall r :: Holds(s.table, r) ==> r in received)
    && (forall r :: Holds(s.queue, r) ==> r in received)
    && (forall r :: r in emitted ==> r in received)
  }

  ghost predicate Coherent(s: Node)
  {
    NoEmptySet(s.queue) && QueueMatchesTable(s)
  }

  ghost predicate Inv(s: Node, emitted: seq<Record>, received: seq<Record>)
  {
    Coherent(s) && HandedOn(s, emitted) && Authentic(s, emitted, received)
  }

  lemma {:induction false} DeliverKeepsInv(s: Node, rs: seq<Record>, emitted: seq<Record>, received: seq<Record>)
    requires Inv(s, emitted, received)
    requires forall r :: r in rs ==> r in received
    ensures Inv(Deliver(s, rs), emitted, received)
    decreases |rs|
  {
    if rs != [] {
      assert rs[0] in rs;
      AcceptKeepsInv(s, rs[0], emitted, received);
      DeliverKeepsInv(Accept(s, rs[0]), rs[1..], emitted, received);
    }
  }

  lemma AcceptKeepsInv(s: Node, r: Record, emitted: seq<Record>, received: seq<Record>)
    requires Inv(s, emitted, received) && r in received
    ensures Inv(Accept(s, r), emitted, received)
  {
    var s' := Accept(s, r);
    if s' != s {
      assert r.addr in s'.queue[r.code];
      assert NoEmptySet(s'.queue);
      assert QueueMatchesTable(s');
      assert HandedOn(s', emitted);
    }
  }

  /** The records sent and the events left together are the queue, and what is left is unchanged. */
  lemma {:induction false} QueueSplits(queue: Table, n: nat, r: Record)
    requires n <= |TableRecords(queue)|
    ensures var rs := TableRecords(queue);
            && (Holds(FromRecords(rs[n..]), r) <==> r in rs[n..])
            && (Holds(queue, r) <==> r in rs[..n] || Holds(FromRecords(rs[n..]), r))
  {
    var rs := TableRecords(queue);
    TableRecordsExact(queue);
    FromRecordsLookup(rs[n..], r.code, r.addr);
    assert rs == rs[..n] + rs[n..];
  }

  lemma LeftEventsMatch(s: Node, n: nat)
    requires QueueMatchesTable(s) && n <= |TableRecords(s.queue)|
    ensures QueueMatchesTable(s.(queue := FromRecords(TableRecords(s.queue)[n..])))
  {
    var left := FromRecords(TableRecords(s.queue)[n..]);
    forall code: U128, addr: U32 | Lookup(left, code, addr).Some?
      ensures Lookup(s.queue, code, addr) == Lookup(left, code, addr)
    {
      var r := Record(code, addr, Lookup(left, code, addr).value);
      assert Holds(left, r);
      QueueSplits(s.queue, n, r);
    }
  }

  lemma BroadcastKeepsInv(s: Node, n: nat, emitted: seq<Record>, received: seq<Record>)
    requires Inv(s, emitted, received) && n <= |TableRecords(s.queue)|
    ensures var rs := TableRecords(s.queue);
            Inv(s.(queue := FromRecords(rs[n..])), emitted + rs[..n], received)
  {
    var rs := TableRecords(s.queue);
    LeftEventsMatch(s, n);
    forall r: Record
      ensures Holds(s.queue, r) <==> r in rs[..n] || Holds(FromRecords(rs[n..]), r)
    {
      QueueSplits(s.queue, n, r);
    }
  }

  lemma PruneKeepsInv(s: Node, t: Table, emitted: seq<Record>, received: seq<Record>)
    requires Inv(s, emitted, received)
    requires forall code, addr :: Lookup(t, code, addr).Some? ==> Lookup(t, code, addr) == Lookup(s.table, code, addr)
    ensures Inv(s.(table := t), emitted, received)
  {
    forall r: Record | Holds(t, r)
      ensures Holds(s.table, r)
    {
    }
  }

  lemma InvGrows(s: Node, emitted: seq<Record>, received: seq<Record>, more: seq<Record>)
    requires Inv(s, emitted, received)
    ensures Inv(s, emitted, received + more)
  {
  }

  lemma StepKeepsInv(s: Node, event: Event, framing: Framing, emitted: seq<Record>, received: seq<Record>)
    requires Inv(s, emitted, received)
    ensures Inv(Step(s, event, framing), emitted + Emitted(s, event, framing), received + Received(event))
  {
    InvGrows(s, emitted, received, Received(event));
    var received := received + Received(event);
    match event {
      case Message(message) =>
        DeliverKeepsInv(s, Records(message), emitted, received);
      case MergeState(state) =>
        DeliverKeepsInv(s, Records(state), emitted, received);
      case Broadcast(limit) =>
        BroadcastKeepsInv(s, SentCount(TableRecords(s.queue), limit, framing), emitted, received);
      case Join(id, addr) =>
        PruneKeepsInv(s, Evict(s.table, id, addr), emitted, received);
      case Leave(id) =>
        PruneKeepsInv(s, Forget(s.table, id), emitted, received);
    }
    assert event.Broadcast? || emitted + Emitted(s, event, framing) == emitted;
  }

  /** The object invariant alone is kept by every step, whatever the node has sent and received before. */
  lemma StepKeepsCoherent(s: Node, event: Event, framing: Framing)
    requires Coherent(s)
    ensures Coherent(Step(s, event, framing))
  {
    TableRecordsExact(s.table);
    TableRecordsExact(s.queue);
    var known := TableRecords(s.table);
    assert Inv(s, known, known + TableRecords(s.queue));
    StepKeepsInv(s, event, framing, known, known + TableRecords(s.queue));
  }

  /**
   In every reachable state: no queued set is empty, a queued event for a stored key is the stored presence,
   every stored presence is still queued or has been sent, and nothing was invented.
   */
  lemma {:induction false} EveryRunKeepsInv(events: seq<Event>, framing: Framing)
    ensures Inv(Run(events, framing), AllEmitted(events, framing), AllReceived(events))
  {
    if events != [] {
      var front, event := events[..|events| - 1], events[|events| - 1];
      EveryRunKeepsInv(front, framing);
      StepKeepsInv(Run(front, framing), event, framing, AllEmitted(front, framing), AllReceived(front));
    }
  }
}
