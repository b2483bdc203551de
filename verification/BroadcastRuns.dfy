/** Series of broadcasts at the end of any run of a node: what they send, what they leave, when they drain it. */
module BroadcastRuns {
  import opened PresenceCodec
  import opened PresenceTable
  import opened Rebroadcast
  import opened WarmUpRuns

  function Broadcasts(limits: seq<nat>): (events: seq<Event>)
  {
    if limits == [] then [] else Broadcasts(limits[..|limits| - 1]) + [Broadcast(limits[|limits| - 1])]
  }

  lemma {:induction false} BroadcastsNext(events: seq<Event>, limits: seq<nat>, limit: nat)
    ensures events + Broadcasts(limits + [limit]) == events + Broadcasts(limits) + [Broadcast(limit)]
  {
    assert (limits + [limit])[..|limits|] == limits;
  }

  /** The records queued after a run, in the order they would be sent. */
  function Queued(events: seq<Event>, framing: Framing): (rs: seq<Record>)
  {
    TableRecords(Run(events, framing).queue)
  }

  lemma {:induction false} RunNext(events: seq<Event>, event: Event, framing: Framing)
    ensures Run(events + [event], framing) == Step(Run(events, framing), event, framing)
    ensures AllEmitted(events + [event], framing) ==
            AllEmitted(events, framing) + Emitted(Run(events, framing), event, framing)
  {
    assert (events + [event])[..|events|] == events;
  }

  lemma AscendingSuffix(rs: seq<Record>, n: nat)
    requires Ascending(rs) && n <= |rs|
    ensures Ascending(rs[n..])
  {
  }

  /** One broadcast takes the fitting prefix off the list of queued records, and touches nothing else. */
  lemma {:induction false} BroadcastTakesPrefix(events: seq<Event>, limit: nat, framing: Framing)
    ensures var rs, all := Queued(events, framing), events + [Broadcast(limit)];
            var n := SentCount(rs, limit, framing);
            && Queued(all, framing) == rs[n..]
            && AllEmitted(all, framing) == AllEmitted(events, framing) + rs[..n]
            && Run(all, framing).table == Run(events, framing).table
  {
    var rs := Queued(events, framing);
    var n := SentCount(rs, limit, framing);
    RunNext(events, Broadcast(limit), framing);
    TableRecordsExact(Run(events, framing).queue);
    AscendingSuffix(rs, n);
    FromRecordsInverse(rs[n..]);
  }

  /** After a run, further broadcasts have sent and left exactly what the series of limits lets through. */
  ghost predicate Follows(events: seq<Event>, limits: seq<nat>, framing: Framing)
  {
    var rs, all := Queued(events, framing), events + Broadcasts(limits);
    && Queued(all, framing) == Left(rs, limits, framing)
    && AllEmitted(all, framing) == AllEmitted(events, framing) + Sent(rs, limits, framing)
    && Run(all, framing).table == Run(events, framing).table
  }

  lemma FollowsNext(events: seq<Event>, limits: seq<nat>, limit: nat, framing: Framing)
    requires Follows(events, limits, framing)
    ensures Follows(events, limits + [limit], framing)
  {
    var rs, before := Queued(events, framing), events + Broadcasts(limits);
    var left := Left(rs, limits, framing);
    BroadcastsNext(events, limits, limit);
    BroadcastTakesPrefix(before, limit, framing);
    SeriesAppend(rs, limits, limit, framing);
    Associate(AllEmitted(events, framing), Sent(rs, limits, framing), left[..SentCount(left, limit, framing)]);
  }

  lemma {:induction false} BroadcastsFollow(events: seq<Event>, limits: seq<nat>, framing: Framing)
    ensures Follows(events, limits, framing)
    decreases |limits|
  {
    if limits == [] {
      assert events + Broadcasts(limits) == events;
    } else {
      var front := limits[..|limits| - 1];
      BroadcastsFollow(events, front, framing);
      FollowsNext(events, front, limits[|limits| - 1], framing);
      assert limits == front + [limits[|limits| - 1]];
    }
  }

  /** Over a series of broadcasts nothing is lost, repeated or reordered, and the map is untouched. */
  lemma {:induction false} BroadcastsConserve(events: seq<Event>, limits: seq<nat>, framing: Framing)
    ensures var all := events + Broadcasts(limits);
            && AllEmitted(all, framing) + Queued(all, framing) == AllEmitted(events, framing) + Queued(events, framing)
            && Run(all, framing).table == Run(events, framing).table
  {
    var rs := Queued(events, framing);
    BroadcastsFollow(events, limits, framing);
    SeriesConserves(rs, limits, framing);
    Associate(AllEmitted(events, framing), Sent(rs, limits, framing), Left(rs, limits, framing));
  }

  lemma {:induction false} NothingQueued(events: seq<Event>, framing: Framing)
    ensures Queued(events, framing) == [] <==> Run(events, framing).queue == map[]
  {
    EveryRunKeepsInv(events, framing);
    TableRecordsInverse(Run(events, framing).queue);
  }

  lemma {:induction false} QueuedExact(events: seq<Event>, framing: Framing, r: Record)
    ensures r in Queued(events, framing) <==> Holds(Run(events, framing).queue, r)
  {
    TableRecordsExact(Run(events, framing).queue);
  }

  lemma {:induction false} AllSentIsNoneLeft(rs: seq<Record>, limits: seq<nat>, framing: Framing)
    ensures Sent(rs, limits, framing) == rs <==> Left(rs, limits, framing) == []
  {
    SeriesConserves(rs, limits, framing);
    assert |Sent(rs, limits, framing)| + |Left(rs, limits, framing)| == |rs|;
  }

  /**
   After any run, as many broadcasts under one limit as there are queued events empty the node's queue if and
   only if each queued event fits the limit alone.
   */
  lemma {:induction false} BroadcastsDrain(events: seq<Event>, limit: nat, rounds: nat, framing: Framing)
    requires |Queued(events, framing)| <= rounds
    ensures Run(events + Broadcasts(seq(rounds, _ => limit)), framing).queue == map[] <==>
            forall r :: Holds(Run(events, framing).queue, r) ==> framing(Encode(r)).0 <= limit
  {
    var rs, limits := Queued(events, framing), seq(rounds, _ => limit);
    BroadcastsFollow(events, limits, framing);
    NothingQueued(events + Broadcasts(limits), framing);
    AllSentIsNoneLeft(rs, limits, framing);
    RepeatedBroadcastDrains(rs, limit, rounds, framing);
    forall r: Record
      ensures r in rs <==> Holds(Run(events, framing).queue, r)
    {
      QueuedExact(events, framing, r);
    }
  }

  lemma OrderedIndices(rs: seq<Record>, k: nat, j: nat)
    requires Ascending(rs) && k < |rs| && j < |rs| && (rs[j] == rs[k] || Before(rs[k], rs[j]))
    ensures k <= j
  {
  }

  /** A queued event larger than every limit stays queued, and so does every event behind it. */
  lemma {:induction false} OversizedEventStays(events: seq<Event>, limits: seq<nat>,
                                               framing: Framing, r: Record, r': Record)
    requires Holds(Run(events, framing).queue, r) && Holds(Run(events, framing).queue, r')
    requires forall limit :: limit in limits ==> limit < framing(Encode(r)).0
    requires r' == r || Before(r, r')
    ensures Holds(Run(events + Broadcasts(limits), framing).queue, r')
  {
    var rs := Queued(events, framing);
    QueuedExact(events, framing, r);
    QueuedExact(events, framing, r');
    TableRecordsExact(Run(events, framing).queue);
    var k :| 0 <= k < |rs| && rs[k] == r;
    var j :| 0 <= j < |rs| && rs[j] == r';
    OrderedIndices(rs, k, j);
    BehindOversizedIsLeft(rs, k, j, limits, framing);
    BroadcastsFollow(events, limits, framing);
    QueuedExact(events + Broadcasts(limits), framing, r');
  }
}
