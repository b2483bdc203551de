/** The node object: two nested ordered maps changed in place by the delegate callbacks. */
module WarmUpMapNode {
  import opened Bytes
  import opened ByteOrder
  import opened Options
  import opened PresenceCodec
  import opened PresenceTable
  import opened WarmUpMap
  import opened StateTransfer
  import opened Rebroadcast
  import opened WarmUpRuns

  const NoFraming: Framing := bytes => (|bytes|, bytes)

  /**
   The inner loop of a broadcast: pops the events of one code until the next would exceed the limit; that one
   and those behind it are the set returned.
   */
  method SendSet(ghost rs: seq<Record>, ghost tail: seq<Record>, code: U128, events: PresenceSet,
                 limit: nat, framing: Framing, sent: seq<seq<byte>>, spent: nat)
    returns (out: seq<seq<byte>>, total: nat, nodes: PresenceSet)
    requires Sending(rs, sent, spent, framing) && spent <= limit
    requires rs[|sent|..] == SetRecords(code, events) + tail
    ensures Sending(rs, out, total, framing) && total <= limit
    ensures rs[|out|..] == SetRecords(code, nodes) + tail
    ensures nodes != map[] ==> |out| < |rs| && total + framing(Encode(rs[|out|])).0 > limit
  {
    out, total, nodes := sent, spent, events;
    while nodes != map[]
      invariant Sending(rs, out, total, framing) && total <= limit
      invariant rs[|out|..] == SetRecords(code, nodes) + tail
      decreases nodes.Keys
    {
      var addr := Least(nodes.Keys);
      PopFirst(rs, |out|, code, nodes, tail);
      var (len, bytes) := framing(Encode(Record(code, addr, nodes[addr])));
      SendNext(rs, out, total, framing);
      if total + len > limit {
        return;
      }
      total := total + len;
      out := out + [bytes];
      nodes := nodes - {addr};
    }
  }

  class WarmUpMapNode {
    var table: Table
    var queue: Table

    function State(): (s: Node)
      reads this
    {
      Node(table, queue)
    }

    ghost predicate Valid()
      reads this
    {
      Coherent(State())
    }

    constructor ()
      ensures Valid() && State() == EMPTY
    {
      table, queue := map[], map[];
    }

    /** The body of the read loop, once a record has been read. */
    method Merge(r: Record)
      modifies this
      ensures State() == Accept(old(State()), r)
    {
      if r.code !in table {
        table := table[r.code := map[]];
      }
      var nodes := table[r.code];
      var isUpdated := r.addr !in nodes || nodes[r.addr].alive != r.node.alive
                       || nodes[r.addr].updatedAt < r.node.updatedAt;
      if isUpdated {
        var events := if r.code in queue then queue[r.code] else map[];
        queue := queue[r.code := events[r.addr := r.node]];
        table := table[r.code := nodes[r.addr := r.node]];
        assert table == Insert(old(table), r);
      }
    }

    /**
     Reads record after record. A trailing fragment makes the reader panic: `ok` is false, and the records
     before the fragment have been merged.
     */
    method NotifyMessage(message: seq<byte>) returns (ok: bool)
      requires Valid()
      modifies this
      ensures Valid()
      ensures ok <==> |message| % 45 == 0
      ensures State() == Receive(old(State()), message) == Step(old(State()), Message(message), NoFraming)
    {
      var reader := message;
      while |reader| >= RECORD_SIZE
        invariant |message| % RECORD_SIZE == |reader| % RECORD_SIZE
        invariant Deliver(State(), Records(reader)) == Deliver(old(State()), Records(message))
        decreases |reader|
      {
        var r := Decode(reader[..RECORD_SIZE]);
        RecordsOfNext(State(), reader);
        Merge(r);
        reader := reader[RECORD_SIZE..];
      }
      ok := reader == [];
      StepKeepsCoherent(old(State()), Message(message), NoFraming);
    }

    method MergeRemoteState(state: seq<byte>) returns (ok: bool)
      requires Valid()
      modifies this
      ensures Valid()
      ensures ok <==> |state| % 45 == 0
      ensures State() == Receive(old(State()), state) == Step(old(State()), MergeState(state), NoFraming)
    {
      ok := NotifyMessage(state);
    }

    method EvictEverywhere(id: U128, addr: U32)
      modifies this`table
      ensures table == Evict(old(table), id, addr)
    {
      var todo := table.Keys;
      while todo != {}
        invariant todo <= table.Keys == old(table).Keys
        invariant forall code :: code in table ==>
                    table[code] == if code in todo then old(table)[code] else Evict(old(table), id, addr)[code]
        decreases todo
      {
        var code :| code in todo;
        table := table[code := EvictFrom(table[code], id, addr)];
        todo := todo - {code};
      }
    }

    method NotifyJoin(id: U128, addr: U32)
      requires Valid()
      modifies this`table
      ensures Valid()
      ensures State() == Step(old(State()), Join(id, addr), NoFraming)
      ensures table.Keys == old(table).Keys
      ensures forall code, a, p ::
                Lookup(table, code, a) == Some(p) <==>
                Lookup(old(table), code, a) == Some(p) && !(a == addr && p.id != id)
    {
      EvictEverywhere(id, addr);
      StepKeepsCoherent(old(State()), Join(id, addr), NoFraming);
      EvictedExactly(old(table), id, addr);
    }

    method ForgetEverywhere(id: U128)
      modifies this`table
      ensures table == Forget(old(table), id)
    {
      var todo := table.Keys;
      while todo != {}
        invariant todo <= table.Keys == old(table).Keys
        invariant forall code :: code in table ==>
                    table[code] == if code in todo then old(table)[code] else Forget(old(table), id)[code]
        decreases todo
      {
        var code :| code in todo;
        table := table[code := ForgetFrom(table[code], id)];
        todo := todo - {code};
      }
    }

    method NotifyLeave(id: U128)
      requires Valid()
      modifies this`table
      ensures Valid()
      ensures State() == Step(old(State()), Leave(id), NoFraming)
      ensures table.Keys == old(table).Keys
      ensures forall code, a, p ::
                Lookup(table, code, a) == Some(p) <==> Lookup(old(table), code, a) == Some(p) && p.id != id
    {
      ForgetEverywhere(id);
      StepKeepsCoherent(old(State()), Leave(id), NoFraming);
      ForgottenExactly(old(table), id);
    }

    method LocalStateBytes() returns (bytes: seq<byte>)
      ensures bytes == LocalState(State())
    {
      ghost var rs := TableRecords(table);
      ghost var n := 0;
      bytes := [];
      var codes := table;
      while codes != map[]
        invariant n <= |rs| && TableRecords(codes) == rs[n..]
        invariant bytes == EncodeAll(rs[..n])
        decreases codes.Keys
      {
        var code := Least(codes.Keys);
        var nodes := codes[code];
        codes := codes - {code};
        ghost var tail := TableRecords(codes);
        while nodes != map[]
          invariant n <= |rs| && rs[n..] == SetRecords(code, nodes) + tail
          invariant bytes == EncodeAll(rs[..n])
          decreases nodes.Keys
        {
          var addr := Least(nodes.Keys);
          PopFirst(rs, n, code, nodes, tail);
          EncodeNext(rs, n);
          bytes := bytes + Encode(Record(code, addr, nodes[addr]));
          nodes := nodes - {addr};
          n := n + 1;
        }
      }
      assert rs[..n] == rs;
    }

    /**
     Pops events in (code id, address) order until the next one would exceed the limit; that one is put back.
     */
    method BroadcastMessages(limit: nat, framing: Framing) returns (out: seq<seq<byte>>)
      requires Valid()
      modifies this`queue
      ensures Valid()
      ensures State() == Step(old(State()), Broadcast(limit), framing)
      ensures var sent := Emitted(old(State()), Broadcast(limit), framing);
              && |out| == |sent| && forall i :: 0 <= i < |out| ==> out[i] == framing(Encode(sent[i])).1
    {
      ghost var rs := TableRecords(queue);
      var total: nat := 0;
      out := [];
      while queue != map[]
        invariant NoEmptySet(queue)
        invariant Sending(rs, out, total, framing) && total <= limit
        invariant TableRecords(queue) == rs[|out|..]
        decreases queue.Keys
      {
        var code: U128 := Least(queue.Keys);
        var nodes: PresenceSet := queue[code];
        var later: Table := queue - {code};
        LaterCodes(queue);
        out, total, nodes := SendSet(rs, TableRecords(later), code, nodes, limit, framing, out, total);
        if nodes != map[] {
          QueueWithFront(code, nodes, later);
          queue := later[code := nodes];
          BroadcastStops(old(State()), queue, out, total, limit, framing);
          return;
        }
        queue := later;
      }
      BroadcastStops(old(State()), queue, out, total, limit, framing);
    }
  }

  lemma {:induction false} RecordsOfNext(s: Node, reader: seq<byte>)
    requires |reader| >= RECORD_SIZE
    ensures Deliver(s, Records(reader)) ==
            Deliver(Accept(s, Decode(reader[..RECORD_SIZE])), Records(reader[RECORD_SIZE..]))
  {
    assert Records(reader)[1..] == Records(reader[RECORD_SIZE..]);
  }

  /** One pop from the set being visited moves one record from the rest of the list to its front. */
  lemma {:induction false} PopFirst(rs: seq<Record>, n: nat, code: U128, nodes: PresenceSet, tail: seq<Record>)
    requires nodes != map[]
    requires n <= |rs| && rs[n..] == SetRecords(code, nodes) + tail
    ensures var addr := Least(nodes.Keys);
            && n < |rs| && rs[n] == Record(code, addr, nodes[addr])
            && rs[n + 1..] == SetRecords(code, nodes - {addr}) + tail
  {
    var addr := Least(nodes.Keys);
    var rest := SetRecords(code, nodes - {addr});
    assert rs[n..] == [Record(code, addr, nodes[addr])] + (rest + tail);
    assert rs[n..][0] == rs[n];
    assert rs[n + 1..] == rs[n..][1..];
  }

  lemma EncodeNext(rs: seq<Record>, n: nat)
    requires n < |rs|
    ensures EncodeAll(rs[..n + 1]) == EncodeAll(rs[..n]) + Encode(rs[n])
  {
    assert rs[..n + 1] == rs[..n] + [rs[n]];
    EncodeAllAppend(rs[..n], [rs[n]]);
    EncodeAllOfOne(rs[n]);
  }

  lemma EncodeAllOfOne(r: Record)
    ensures EncodeAll([r]) == Encode(r)
  {
  }

  function Frames(rs: seq<Record>, framing: Framing): (out: seq<seq<byte>>)
    ensures |out| == |rs|
  {
    if rs == [] then [] else [framing(Encode(rs[0])).1] + Frames(rs[1..], framing)
  }

  lemma {:induction false} FramesExactly(rs: seq<Record>, framing: Framing)
    ensures forall i :: 0 <= i < |rs| ==> Frames(rs, framing)[i] == framing(Encode(rs[i])).1
  {
    if rs != [] {
      FramesExactly(rs[1..], framing);
    }
  }

  lemma {:induction false} FramesOfNext(rs: seq<Record>, n: nat, framing: Framing)
    requires n < |rs|
    ensures Frames(rs[..n + 1], framing) == Frames(rs[..n], framing) + [framing(Encode(rs[n])).1]
  {
    if n > 0 {
      FramesOfNext(rs[1..], n - 1, framing);
      assert rs[..n + 1][1..] == rs[1..][..n] && rs[..n][1..] == rs[1..][..n - 1];
    }
  }

  ghost predicate Sending(rs: seq<Record>, out: seq<seq<byte>>, total: nat, framing: Framing)
  {
    |out| <= |rs| && out == Frames(rs[..|out|], framing) && total == Cost(rs[..|out|], framing)
  }

  lemma SendNext(rs: seq<Record>, out: seq<seq<byte>>, total: nat, framing: Framing)
    requires Sending(rs, out, total, framing) && |out| < |rs|
    ensures var (len, bytes) := framing(Encode(rs[|out|]));
            Sending(rs, out + [bytes], total + len, framing)
  {
    CostOfNext(rs, |out|, framing);
    FramesOfNext(rs, |out|, framing);
  }

  lemma {:induction false} StoppedAtBudget(rs: seq<Record>, out: seq<seq<byte>>,
                                           total: nat, limit: nat, framing: Framing)
    requires Sending(rs, out, total, framing) && total <= limit
    requires |out| < |rs| ==> total + framing(Encode(rs[|out|])).0 > limit
    ensures |out| == SentCount(rs, limit, framing)
  {
    if |out| < |rs| {
      CostOfNext(rs, |out|, framing);
    }
    SentCountUnique(rs, limit, framing, |out|);
  }

  lemma {:induction false} BroadcastStops(s: Node, left: Table, out: seq<seq<byte>>,
                                          total: nat, limit: nat, framing: Framing)
    requires Coherent(s) && NoEmptySet(left)
    requires Sending(TableRecords(s.queue), out, total, framing) && total <= limit
    requires TableRecords(left) == TableRecords(s.queue)[|out|..]
    requires |out| < |TableRecords(s.queue)| ==>
               total + framing(Encode(TableRecords(s.queue)[|out|])).0 > limit
    ensures s.(queue := left) == Step(s, Broadcast(limit), framing)
    ensures var sent := Emitted(s, Broadcast(limit), framing);
            && |out| == |sent| && forall i :: 0 <= i < |out| ==> out[i] == framing(Encode(sent[i])).1
    ensures Coherent(s.(queue := left))
  {
    StoppedAtBudget(TableRecords(s.queue), out, total, limit, framing);
    FramesExactly(Emitted(s, Broadcast(limit), framing), framing);
    TableRecordsInverse(left);
    StepKeepsCoherent(s, Broadcast(limit), framing);
  }

  ghost predicate Behind(code: U128, later: Table)
  {
    NoEmptySet(later) && forall c :: c in later ==> code < c
  }

  lemma LaterCodes(q: Table)
    requires q != map[] && NoEmptySet(q)
    ensures Behind(Least(q.Keys), q - {Least(q.Keys)})
  {
  }

  lemma QueueWithFront(code: U128, nodes: PresenceSet, later: Table)
    requires nodes != map[] && Behind(code, later)
    ensures NoEmptySet(later[code := nodes])
    ensures TableRecords(later[code := nodes]) == SetRecords(code, nodes) + TableRecords(later)
  {
    var q := later[code := nodes];
    assert code in q && code !in later;
    assert Least(q.Keys) == code;
    assert q - {code} == later;
  }
}
