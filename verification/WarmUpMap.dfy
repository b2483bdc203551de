/** Merging presence records into a node's table, and the events queued for re-broadcast. */
module WarmUpMap {
  import opened ByteOrder
  import opened Options
  import opened PresenceCodec
  import opened PresenceTable

  datatype Node = Node(table: Table, queue: Table)

  const EMPTY := Node(map[], map[])

  /** A record replaces the stored one when the liveness differs, whatever the timestamps, or when it is newer. */
  predicate Supersedes(stored: Option<Presence>, node: Presence)
  {
    match stored
    case None => true
    case Some(known) => known.alive != node.alive || known.updatedAt < node.updatedAt
  }

  function Accept(s: Node, r: Record): (s': Node)
  {
    if Supersedes(Lookup(s.table, r.code, r.addr), r.node)
    then Node(Insert(s.table, r), Insert(s.queue, r))
    else s
  }

  function Deliver(s: Node, rs: seq<Record>): (s': Node)
    decreases |rs|
  {
    if rs == [] then s else Deliver(Accept(s, rs[0]), rs[1..])
  }

  // ---- one key at a time ----

  function Select(rs: seq<Record>, code: U128, addr: U32): (nodes: seq<Presence>)
  {
    if rs == [] then []
    else (if rs[0].code == code && rs[0].addr == addr then [rs[0].node] else []) + Select(rs[1..], code, addr)
  }

  function Settle(stored: Option<Presence>, nodes: seq<Presence>): (entry: Option<Presence>)
    ensures nodes != [] ==> entry.Some?
    decreases |nodes|
  {
    if nodes == [] then stored
    else Settle(if Supersedes(stored, nodes[0]) then Some(nodes[0]) else stored, nodes[1..])
  }

  predicate Changes(stored: Option<Presence>, nodes: seq<Presence>)
  {
    nodes != [] &&
    (Supersedes(stored, nodes[0]) || Changes(stored, nodes[1..]))
  }

  /** What a message does to one key depends only on that key's entry and that key's records, in order. */
  lemma {:induction false} DeliverAt(s: Node, rs: seq<Record>, code: U128, addr: U32)
    ensures var before, nodes := Lookup(s.table, code, addr), Select(rs, code, addr);
            && Lookup(Deliver(s, rs).table, code, addr) == Settle(before, nodes)
            && Lookup(Deliver(s, rs).queue, code, addr) ==
               if Changes(before, nodes) then Settle(before, nodes) else Lookup(s.queue, code, addr)
    decreases |rs|
  {
    if rs != [] {
      var s' := Accept(s, rs[0]);
      DeliverAt(s', rs[1..], code, addr);
      if rs[0].code == code && rs[0].addr == addr {
        var nodes := Select(rs, code, addr);
        assert nodes[0] == rs[0].node && nodes[1..] == Select(rs[1..], code, addr);
        if !Changes(Lookup(s'.table, code, addr), nodes[1..]) {
          SettleUnchanged(Lookup(s'.table, code, addr), nodes[1..]);
        }
      } else {
        assert Select(rs, code, addr) == Select(rs[1..], code, addr);
        assert Lookup(s'.table, code, addr) == Lookup(s.table, code, addr);
        assert Lookup(s'.queue, code, addr) == Lookup(s.queue, code, addr);
      }
    }
  }

  lemma {:induction false} SettleUnchanged(stored: Option<Presence>, nodes: seq<Presence>)
    requires !Changes(stored, nodes)
    ensures Settle(stored, nodes) == stored
  {
    if nodes != [] {
      SettleUnchanged(stored, nodes[1..]);
    }
  }

  // ---- the closed form of a merge ----

  /** Where the last run of equal liveness starts. */
  function LastRun(nodes: seq<Presence>): (start: nat)
    requires nodes != []
    ensures start < |nodes|
    ensures forall i :: start <= i < |nodes| ==> nodes[i].alive == nodes[|nodes| - 1].alive
    ensures start > 0 ==> nodes[start - 1].alive != nodes[|nodes| - 1].alive
  {
    if |nodes| == 1 then 0 else
    var start := LastRun(nodes[1..]);
    if start == 0 && nodes[0].alive == nodes[1].alive then 0 else start + 1
  }

  /** The position of the first presence that carries the greatest timestamp. */
  function FirstNewest(nodes: seq<Presence>): (k: nat)
    requires nodes != []
    ensures k < |nodes|
    ensures forall i :: 0 <= i < |nodes| ==> nodes[i].updatedAt <= nodes[k].updatedAt
    ensures forall i :: 0 <= i < k ==> nodes[i].updatedAt < nodes[k].updatedAt
  {
    if |nodes| == 1 then 0 else
    var k := FirstNewest(nodes[1..]);
    if nodes[0].updatedAt >= nodes[k + 1].updatedAt then 0 else k + 1
  }

  function Winner(nodes: seq<Presence>): (node: Presence)
    requires nodes != []
  {
    var run := nodes[LastRun(nodes)..];
    run[FirstNewest(run)]
  }

  /**
   A key ends with the first newest record of its last run of equal liveness, unless the message has only
   that run for the key and the stored entry has that liveness and is at least as new.
   */
  lemma {:induction false} SettleClosedForm(stored: Option<Presence>, nodes: seq<Presence>)
    requires nodes != []
    ensures var node := Winner(nodes);
            Settle(stored, nodes) ==
            if LastRun(nodes) == 0 && stored.Some? && stored.value.alive == node.alive
               && stored.value.updatedAt >= node.updatedAt
            then stored else Some(node)
    decreases |nodes|
  {
    if |nodes| == 1 {
      assert Settle(stored, nodes) == if Supersedes(stored, nodes[0]) then Some(nodes[0]) else stored;
    } else {
      var rest := nodes[1..];
      SettleClosedForm(if Supersedes(stored, nodes[0]) then Some(nodes[0]) else stored, rest);
      if LastRun(nodes) == 0 {
        assert nodes[0..] == nodes && rest[0..] == rest;
      } else {
        assert nodes[LastRun(nodes)..] == rest[LastRun(rest)..];
      }
    }
  }

  lemma {:induction false} MixedLivenessChanges(stored: Option<Presence>, nodes: seq<Presence>)
    requires nodes != [] && LastRun(nodes) > 0
    ensures Changes(stored, nodes)
  {
    if !Supersedes(stored, nodes[0]) {
      if LastRun(nodes[1..]) > 0 {
        MixedLivenessChanges(stored, nodes[1..]);
      } else {
        assert nodes[0].alive != nodes[1].alive;
        assert nodes[1..][0] == nodes[1];
      }
    }
  }

  lemma {:induction false} StaleRecordsChangeNothing(stored: Presence, nodes: seq<Presence>)
    requires forall i :: 0 <= i < |nodes| ==> nodes[i].alive == stored.alive && nodes[i].updatedAt <= stored.updatedAt
    ensures !Changes(Some(stored), nodes)
  {
    if nodes != [] {
      StaleRecordsChangeNothing(stored, nodes[1..]);
    }
  }

  lemma {:induction false} ReplayAt(stored: Option<Presence>, nodes: seq<Presence>)
    ensures var entry := Settle(stored, nodes);
            && Settle(entry, nodes) == entry
            && (Changes(entry, nodes) ==> Changes(stored, nodes))
  {
    if nodes != [] {
      var entry := Settle(stored, nodes);
      SettleClosedForm(stored, nodes);
      SettleClosedForm(entry, nodes);
      if LastRun(nodes) > 0 {
        MixedLivenessChanges(stored, nodes);
      } else {
        assert nodes[0..] == nodes;
        StaleRecordsChangeNothing(entry.value, nodes);
      }
    }
  }

  // ---- whole messages ----

  lemma {:induction false} DeliverKeys(s: Node, rs: seq<Record>)
    ensures Deliver(s, rs).table.Keys == s.table.Keys + set r | r in rs :: r.code
    decreases |rs|
  {
    if rs != [] {
      var s' := Accept(s, rs[0]);
      DeliverKeys(s', rs[1..]);
      assert s'.table.Keys == s.table.Keys + {rs[0].code};
      assert forall r :: r in rs <==> r == rs[0] || r in rs[1..];
    }
  }

  lemma {:induction false} DeliverQueueKeys(s: Node, rs: seq<Record>, code: U128)
    ensures code in s.queue ==> code in Deliver(s, rs).queue
    ensures code in Deliver(s, rs).queue ==>
              code in s.queue || exists addr :: Changes(Lookup(s.table, code, addr), Select(rs, code, addr))
    decreases |rs|
  {
    if rs != [] {
      var s' := Accept(s, rs[0]);
      DeliverQueueKeys(s', rs[1..], code);
      if code in Deliver(s, rs).queue && code !in s.queue {
        if code in s'.queue {
          assert Select(rs, code, rs[0].addr)[0] == rs[0].node;
          assert Changes(Lookup(s.table, code, rs[0].addr), Select(rs, code, rs[0].addr));
        } else {
          var addr :| Changes(Lookup(s'.table, code, addr), Select(rs[1..], code, addr));
          ChangesPersist(s, rs, code, addr);
        }
      }
    }
  }

  lemma {:induction false} ChangesPersist(s: Node, rs: seq<Record>, code: U128, addr: U32)
    requires rs != []
    requires Changes(Lookup(Accept(s, rs[0]).table, code, addr), Select(rs[1..], code, addr))
    ensures Changes(Lookup(s.table, code, addr), Select(rs, code, addr))
  {
    var nodes := Select(rs, code, addr);
    if rs[0].code == code && rs[0].addr == addr {
      assert nodes[0] == rs[0].node && nodes[1..] == Select(rs[1..], code, addr);
    } else {
      assert nodes == Select(rs[1..], code, addr);
    }
  }

  /** Delivering a whole message a second time changes neither the table nor the queue. */
  lemma {:induction false} Replay(s: Node, rs: seq<Record>)
    ensures Deliver(Deliver(s, rs), rs) == Deliver(s, rs)
  {
    var once := Deliver(s, rs);
    var twice := Deliver(once, rs);
    forall code: U128, addr: U32
      ensures Lookup(twice.table, code, addr) == Lookup(once.table, code, addr)
      ensures Lookup(twice.queue, code, addr) == Lookup(once.queue, code, addr)
    {
      DeliverAt(s, rs, code, addr);
      DeliverAt(once, rs, code, addr);
      ReplayAt(Lookup(s.table, code, addr), Select(rs, code, addr));
    }
    DeliverKeys(s, rs);
    DeliverKeys(once, rs);
    EqualTables(twice.table, once.table);
    forall code: U128
      ensures code in twice.queue <==> code in once.queue
    {
      DeliverQueueKeys(once, rs, code);
      if code in twice.queue && code !in once.queue {
        var addr :| Changes(Lookup(once.table, code, addr), Select(rs, code, addr));
        DeliverAt(s, rs, code, addr);
        ReplayAt(Lookup(s.table, code, addr), Select(rs, code, addr));
        assert false;
      }
    }
    EqualTables(twice.queue, once.queue);
  }

  // ---- two messages in either order ----

  /** Two messages' records for a key end the same in either order. */
  predicate Commute(stored: Option<Presence>, xs: seq<Presence>, ys: seq<Presence>)
  {
    Settle(Settle(stored, xs), ys) == Settle(Settle(stored, ys), xs)
  }

  predicate IsMixed(nodes: seq<Presence>)
    requires nodes != []
  {
    LastRun(nodes) > 0
  }

  /**
   When the order does not matter, told from the stored entry, each message's winner, and whether each message
   changes its mind about the liveness.
   */
  predicate OrderIsIrrelevant(stored: Option<Presence>, xs: seq<Presence>, ys: seq<Presence>)
  {
    xs == [] || ys == [] ||
    var x, y := Winner(xs), Winner(ys);
    x == y
    || (x.alive == y.alive
        && if IsMixed(xs) then !IsMixed(ys) && x.updatedAt >= y.updatedAt
           else if IsMixed(ys) then y.updatedAt >= x.updatedAt
           else x.updatedAt != y.updatedAt
                || (stored.Some? && stored.value.alive == x.alive && stored.value.updatedAt >= x.updatedAt))
  }

  /** Two messages commute on a key if and only if that holds: never, for one, when they end on different liveness. */
  lemma CommuteExactly(stored: Option<Presence>, xs: seq<Presence>, ys: seq<Presence>)
    ensures Commute(stored, xs, ys) <==> OrderIsIrrelevant(stored, xs, ys)
  {
    if xs != [] && ys != [] {
      SettleClosedForm(stored, xs);
      SettleClosedForm(stored, ys);
      SettleClosedForm(Settle(stored, xs), ys);
      SettleClosedForm(Settle(stored, ys), xs);
    }
  }

  lemma {:induction false} CommuteAt(s: Node, rs: seq<Record>, rs': seq<Record>, code: U128, addr: U32)
    ensures Lookup(Deliver(Deliver(s, rs), rs').table, code, addr) ==
            Lookup(Deliver(Deliver(s, rs'), rs).table, code, addr) <==>
            OrderIsIrrelevant(Lookup(s.table, code, addr), Select(rs, code, addr), Select(rs', code, addr))
  {
    DeliverAt(s, rs, code, addr);
    DeliverAt(s, rs', code, addr);
    DeliverAt(Deliver(s, rs), rs', code, addr);
    DeliverAt(Deliver(s, rs'), rs, code, addr);
    CommuteExactly(Lookup(s.table, code, addr), Select(rs, code, addr), Select(rs', code, addr));
  }

  /** Two whole messages leave the same map in either order if and only if their order is irrelevant to every key. */
  lemma {:induction false} MessagesCommuteExactly(s: Node, rs: seq<Record>, rs': seq<Record>)
    ensures Deliver(Deliver(s, rs), rs').table == Deliver(Deliver(s, rs'), rs).table <==>
            forall code, addr ::
              OrderIsIrrelevant(Lookup(s.table, code, addr), Select(rs, code, addr), Select(rs', code, addr))
  {
    var t, t' := Deliver(Deliver(s, rs), rs').table, Deliver(Deliver(s, rs'), rs).table;
    forall code: U128, addr: U32
      ensures Lookup(t, code, addr) == Lookup(t', code, addr) <==>
              OrderIsIrrelevant(Lookup(s.table, code, addr), Select(rs, code, addr), Select(rs', code, addr))
    {
      CommuteAt(s, rs, rs', code, addr);
    }
    DeliverKeys(s, rs);
    DeliverKeys(s, rs');
    DeliverKeys(Deliver(s, rs), rs');
    DeliverKeys(Deliver(s, rs'), rs);
    if forall code, addr :: Lookup(t, code, addr) == Lookup(t', code, addr) {
      EqualTables(t, t');
    }
  }
}
