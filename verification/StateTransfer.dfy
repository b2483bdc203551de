/** Full-state transfer between nodes: what a merge of another node's state leaves, and when two nodes agree. */
module StateTransfer {
  import opened Bytes
  import opened ByteOrder
  import opened Options
  import opened PresenceCodec
  import opened PresenceTable
  import opened WarmUpMap

  function LocalState(s: Node): (message: seq<byte>)
  {
    EncodeAll(TableRecords(s.table))
  }

  function Receive(s: Node, message: seq<byte>): (s': Node)
  {
    Deliver(s, Records(message))
  }

  function Reconcile(mine: Option<Presence>, theirs: Option<Presence>): (entry: Option<Presence>)
  {
    if theirs.Some? && Supersedes(mine, theirs.value) then theirs else mine
  }

  lemma {:induction false} SelectAscending(rs: seq<Record>, code: U128, addr: U32, entry: Option<Presence>)
    requires Ascending(rs)
    requires forall node :: Record(code, addr, node) in rs <==> entry == Some(node)
    ensures Select(rs, code, addr) == if entry.Some? then [entry.value] else []
  {
    if rs != [] {
      var rest := rs[1..];
      var here := rs[0].code == code && rs[0].addr == addr;
      forall node: Presence
        ensures Record(code, addr, node) in rest <==> !here && entry == Some(node)
      {
        var r := Record(code, addr, node);
        assert r in rs <==> r == rs[0] || r in rest;
        if r in rest {
          HeadComesFirst(rs, r);
        }
      }
      SelectAscending(rest, code, addr, if here then None else entry);
      assert here ==> Record(code, addr, rs[0].node) in rs;
    }
  }

  /** Through the wire format, merging a state reconciles every key with that state's entry for it. */
  lemma {:induction false} MergeAt(s: Node, other: Node, code: U128, addr: U32)
    ensures Select(Records(LocalState(other)), code, addr) ==
            match Lookup(other.table, code, addr) { case None => [] case Some(node) => [node] }
    ensures Lookup(Receive(s, LocalState(other)).table, code, addr) ==
            Reconcile(Lookup(s.table, code, addr), Lookup(other.table, code, addr))
  {
    var rs := TableRecords(other.table);
    TableRecordsExact(other.table);
    RecordsEncodeAll(rs);
    var theirs := Lookup(other.table, code, addr);
    forall node: Presence
      ensures Record(code, addr, node) in rs <==> theirs == Some(node)
    {
      var r := Record(code, addr, node);
      assert r in rs <==> Holds(other.table, r);
    }
    SelectAscending(rs, code, addr, theirs);
    DeliverAt(s, rs, code, addr);
  }

  lemma TransferAt(other: Node, code: U128, addr: U32)
    ensures var copy := Receive(EMPTY, LocalState(other));
            && Lookup(copy.table, code, addr) == Lookup(other.table, code, addr)
            && Lookup(copy.queue, code, addr) == Lookup(other.table, code, addr)
  {
    MergeAt(EMPTY, other, code, addr);
    DeliverAt(EMPTY, Records(LocalState(other)), code, addr);
  }

  /** An empty node that merges a state holds exactly the entries of that state, all of them queued. */
  lemma TransferToEmpty(other: Node)
    ensures forall code, addr ::
              && Lookup(Receive(EMPTY, LocalState(other)).table, code, addr) == Lookup(other.table, code, addr)
              && Lookup(Receive(EMPTY, LocalState(other)).queue, code, addr) == Lookup(other.table, code, addr)
    ensures NoEmptySet(other.table) ==> Receive(EMPTY, LocalState(other)) == Node(other.table, other.table)
  {
    var copy := Receive(EMPTY, LocalState(other));
    forall code: U128, addr: U32
      ensures Lookup(copy.table, code, addr) == Lookup(other.table, code, addr)
      ensures Lookup(copy.queue, code, addr) == Lookup(other.table, code, addr)
    {
      TransferAt(other, code, addr);
    }
    if NoEmptySet(other.table) {
      forall code: U128
        ensures code in copy.table <==> code in other.table
        ensures code in copy.queue <==> code in other.table
      {
        TransferCodes(other, code);
      }
      EqualTables(copy.table, other.table);
      EqualTables(copy.queue, other.table);
    }
  }

  lemma TransferCodes(other: Node, code: U128)
    requires NoEmptySet(other.table)
    ensures var copy := Receive(EMPTY, LocalState(other));
            && (code in copy.table <==> code in other.table)
            && (code in copy.queue <==> code in other.table)
  {
    var rs := TableRecords(other.table);
    RecordsEncodeAll(rs);
    TableRecordsExact(other.table);
    DeliverKeys(EMPTY, rs);
    CodesOfNoEmptySet(other.table, code);
    if code in other.table {
      var addr :| Lookup(other.table, code, addr).Some?;
      assert Record(code, addr, Lookup(other.table, code, addr).value) in rs;
      MergeAt(EMPTY, other, code, addr);
      DeliverAt(EMPTY, rs, code, addr);
    }
    DeliverQueueKeys(EMPTY, rs, code);
    if code in Deliver(EMPTY, rs).queue {
      var addr :| Changes(Lookup(EMPTY.table, code, addr), Select(rs, code, addr));
      MergeAt(EMPTY, other, code, addr);
    }
  }

  lemma {:induction false} RefusedRecordsChangeNothing(s: Node, rs: seq<Record>)
    requires forall r :: r in rs ==> !Supersedes(Lookup(s.table, r.code, r.addr), r.node)
    ensures Deliver(s, rs) == s
    decreases |rs|
  {
    if rs != [] {
      assert rs[0] in rs;
      RefusedRecordsChangeNothing(s, rs[1..]);
    }
  }

  /** Merging a node's own state changes neither its table nor its queue. */
  lemma OwnStateChangesNothing(s: Node)
    ensures Receive(s, LocalState(s)) == s
  {
    AgreementIsStable(s, s);
  }

  // ---- exchanges between two nodes ----

  /** Both nodes lack the key, or both hold it with the same liveness and timestamp. */
  predicate SameFact(x: Option<Presence>, y: Option<Presence>)
  {
    match x
    case None => y.None?
    case Some(p) => y.Some? && p.alive == y.value.alive && p.updatedAt == y.value.updatedAt
  }

  ghost predicate Agree(a: Node, b: Node)
  {
    forall code, addr :: SameFact(Lookup(a.table, code, addr), Lookup(b.table, code, addr))
  }

  lemma ExchangeAt(a: Node, b: Node, a': Node, b': Node, code: U128, addr: U32)
    requires a' == Receive(a, LocalState(b)) && b' == Receive(b, LocalState(a'))
    ensures var x, y := Lookup(a'.table, code, addr), Lookup(b'.table, code, addr);
            && SameFact(x, y)
            && (x == y || SameFact(Lookup(a.table, code, addr), Lookup(b.table, code, addr)))
  {
    MergeAt(a, b, code, addr);
    MergeAt(b, a', code, addr);
  }

  /**
   When A merges B's state and B then merges A's new state, the two agree on every key, and they hold the
   very same presence unless both already knew the key with equal liveness and timestamp.
   */
  lemma PushPullAgreement(a: Node, b: Node)
    ensures var a' := Receive(a, LocalState(b));
            var b' := Receive(b, LocalState(a'));
            && Agree(a', b')
            && forall code, addr ::
                 Lookup(a'.table, code, addr) == Lookup(b'.table, code, addr)
                 || SameFact(Lookup(a.table, code, addr), Lookup(b.table, code, addr))
  {
    var a' := Receive(a, LocalState(b));
    var b' := Receive(b, LocalState(a'));
    forall code: U128, addr: U32
      ensures SameFact(Lookup(a'.table, code, addr), Lookup(b'.table, code, addr))
      ensures Lookup(a'.table, code, addr) == Lookup(b'.table, code, addr)
              || SameFact(Lookup(a.table, code, addr), Lookup(b.table, code, addr))
    {
      ExchangeAt(a, b, a', b', code, addr);
    }
  }

  /** Nodes that agree are settled: one more push changes neither the table nor the queue of the receiver. */
  lemma AgreementIsStable(a: Node, b: Node)
    requires Agree(a, b)
    ensures Receive(a, LocalState(b)) == a
  {
    var rs := TableRecords(b.table);
    RecordsEncodeAll(rs);
    TableRecordsExact(b.table);
    forall r | r in rs
      ensures !Supersedes(Lookup(a.table, r.code, r.addr), r.node)
    {
      assert SameFact(Lookup(a.table, r.code, r.addr), Lookup(b.table, r.code, r.addr));
    }
    RefusedRecordsChangeNothing(a, rs);
  }

  ghost predicate SameLiveness(x: Option<Presence>, y: Option<Presence>)
  {
    x.Some? && y.Some? ==> x.value.alive == y.value.alive
  }

  /** What a crossed exchange does to one key: it is settled, or the two entries differ in liveness and are swapped. */
  lemma CrossedAt(a: Node, b: Node, code: U128, addr: U32)
    ensures var x, y := Lookup(a.table, code, addr), Lookup(b.table, code, addr);
            var x' := Lookup(Receive(a, LocalState(b)).table, code, addr);
            var y' := Lookup(Receive(b, LocalState(a)).table, code, addr);
            && (SameFact(x', y') <==> SameLiveness(x, y))
            && (!SameLiveness(x, y) ==> x' == y && y' == x)
  {
    MergeAt(a, b, code, addr);
    MergeAt(b, a, code, addr);
  }

  /**
   When each node merges the state the other had before the exchange, the two agree exactly when no key
   they both held differed in liveness.
   */
  lemma CrossedExchange(a: Node, b: Node)
    ensures Agree(Receive(a, LocalState(b)), Receive(b, LocalState(a))) <==>
            forall code, addr :: SameLiveness(Lookup(a.table, code, addr), Lookup(b.table, code, addr))
  {
    var a', b' := Receive(a, LocalState(b)), Receive(b, LocalState(a));
    forall code: U128, addr: U32
      ensures SameFact(Lookup(a'.table, code, addr), Lookup(b'.table, code, addr)) <==>
              SameLiveness(Lookup(a.table, code, addr), Lookup(b.table, code, addr))
    {
      CrossedAt(a, b, code, addr);
    }
  }

  datatype Pair = Pair(a: Node, b: Node)

  function CrossOnce(p: Pair): (p': Pair)
  {
    Pair(Receive(p.a, LocalState(p.b)), Receive(p.b, LocalState(p.a)))
  }

  /** Two nodes after so many exchanges of a kind in a row. */
  function Repeated(exchange: Pair -> Pair, p: Pair, rounds: nat): (p': Pair)
    decreases rounds
  {
    if rounds == 0 then p else exchange(Repeated(exchange, p, rounds - 1))
  }

  ghost predicate Holding(p: Pair, code: U128, addr: U32, x: Option<Presence>, y: Option<Presence>)
  {
    Lookup(p.a.table, code, addr) == x && Lookup(p.b.table, code, addr) == y
  }

  lemma CrossedOnce(p: Pair, code: U128, addr: U32, x: Option<Presence>, y: Option<Presence>)
    requires Holding(p, code, addr, x, y) && !SameLiveness(x, y)
    ensures Holding(CrossOnce(p), code, addr, y, x)
  {
    CrossedAt(p.a, p.b, code, addr);
  }

  ghost predicate Swaps(exchange: Pair -> Pair, code: U128, addr: U32)
  {
    forall p, x, y :: Holding(p, code, addr, x, y) && !SameLiveness(x, y) ==> Holding(exchange(p), code, addr, y, x)
  }

  lemma {:induction false} SwapsForEver(exchange: Pair -> Pair, p: Pair, rounds: nat, code: U128,
                                        addr: U32, x: Option<Presence>, y: Option<Presence>)
    requires Swaps(exchange, code, addr) && Holding(p, code, addr, x, y) && !SameLiveness(x, y)
    ensures if rounds % 2 == 0 then Holding(Repeated(exchange, p, rounds), code, addr, x, y)
            else Holding(Repeated(exchange, p, rounds), code, addr, y, x)
    decreases rounds
  {
    if rounds > 0 {
      SwapsForEver(exchange, p, rounds - 1, code, addr, x, y);
      var q := Repeated(exchange, p, rounds - 1);
      assert !SameLiveness(y, x);
      if rounds % 2 == 0 {
        assert Holding(q, code, addr, y, x);
      } else {
        assert Holding(q, code, addr, x, y);
      }
    }
  }

  /** However often it is repeated, a crossed exchange never settles a key whose entries differ in liveness. */
  lemma {:induction false} CrossedForEver(p: Pair, rounds: nat, code: U128, addr: U32,
                                          x: Option<Presence>, y: Option<Presence>)
    requires Holding(p, code, addr, x, y) && !SameLiveness(x, y)
    ensures if rounds % 2 == 0 then Holding(Repeated(CrossOnce, p, rounds), code, addr, x, y)
            else Holding(Repeated(CrossOnce, p, rounds), code, addr, y, x)
  {
    forall p, x, y | Holding(p, code, addr, x, y) && !SameLiveness(x, y)
      ensures Holding(CrossOnce(p), code, addr, y, x)
    {
      CrossedOnce(p, code, addr, x, y);
    }
    SwapsForEver(CrossOnce, p, rounds, code, addr, x, y);
  }

  /** For any two presences that differ in liveness, two nodes whose crossed exchange only swaps them. */
  lemma CrossedExchangeSwaps(code: U128, addr: U32, mine: Presence, theirs: Presence)
    returns (a: Node, b: Node)
    requires mine.alive != theirs.alive
    ensures Lookup(a.table, code, addr) == Some(mine) && Lookup(b.table, code, addr) == Some(theirs)
    ensures Lookup(Receive(a, LocalState(b)).table, code, addr) == Some(theirs)
    ensures Lookup(Receive(b, LocalState(a)).table, code, addr) == Some(mine)
    ensures !Agree(Receive(a, LocalState(b)), Receive(b, LocalState(a)))
  {
    a := Node(Insert(map[], Record(code, addr, mine)), map[]);
    b := Node(Insert(map[], Record(code, addr, theirs)), map[]);
    CrossedAt(a, b, code, addr);
  }
}
