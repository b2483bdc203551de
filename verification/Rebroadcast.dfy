/** The byte-budgeted broadcast of queued events. */
module Rebroadcast {
  import opened Bytes
  import opened PresenceCodec

  /** The transport's framing: the size it charges for a record's bytes, and the bytes it will send. */
  type Framing = seq<byte> -> (nat, seq<byte>)

  function Cost(rs: seq<Record>, framing: Framing): (total: nat)
  {
    if rs == [] then 0 else framing(Encode(rs[0])).0 + Cost(rs[1..], framing)
  }

  lemma {:induction false} CostOfNext(rs: seq<Record>, n: nat, framing: Framing)
    requires n < |rs|
    ensures Cost(rs[..n + 1], framing) == Cost(rs[..n], framing) + framing(Encode(rs[n])).0
  {
    if n > 0 {
      CostOfNext(rs[1..], n - 1, framing);
      assert rs[..n + 1][1..] == rs[1..][..n] && rs[..n][1..] == rs[1..][..n - 1];
    }
  }

  lemma {:induction false} CostGrows(rs: seq<Record>, m: nat, n: nat, framing: Framing)
    requires m <= n <= |rs|
    ensures Cost(rs[..m], framing) <= Cost(rs[..n], framing)
    decreases n
  {
    if m < n {
      CostOfNext(rs, n - 1, framing);
      CostGrows(rs, m, n - 1, framing);
    }
  }

  /** How many records go out: the longest prefix whose framed sizes stay within the limit. */
  ghost predicate FillsBudget(rs: seq<Record>, limit: nat, framing: Framing, n: nat)
  {
    && n <= |rs|
    && Cost(rs[..n], framing) <= limit
    && (n < |rs| ==> Cost(rs[..n + 1], framing) > limit)
  }

  function SentCount(rs: seq<Record>, limit: nat, framing: Framing): (n: nat)
    ensures FillsBudget(rs, limit, framing, n)
  {
    if rs == [] || framing(Encode(rs[0])).0 > limit then
      assert rs != [] ==> rs[..1][1..] == [];
      0
    else
      var rest := rs[1..];
      var n := SentCount(rest, limit - framing(Encode(rs[0])).0, framing);
      assert rs[..n + 1][1..] == rest[..n];
      assert n < |rest| ==> rs[..n + 2][1..] == rest[..n + 1];
      n + 1
  }

  lemma {:induction false} SentCountUnique(rs: seq<Record>, limit: nat, framing: Framing, n: nat)
    requires FillsBudget(rs, limit, framing, n)
    ensures n == SentCount(rs, limit, framing)
  {
    var m := SentCount(rs, limit, framing);
    if m < n {
      CostGrows(rs, m + 1, n, framing);
    } else if n < m {
      CostGrows(rs, n + 1, m, framing);
    }
  }

  // ---- repeated broadcasts ----

  /** What a series of broadcasts sends, and what it leaves queued, with no event arriving in between. */
  function Sent(rs: seq<Record>, limits: seq<nat>, framing: Framing): (out: seq<Record>)
    decreases |limits|
  {
    if limits == [] then [] else
    var n := SentCount(rs, limits[0], framing);
    rs[..n] + Sent(rs[n..], limits[1..], framing)
  }

  function Left(rs: seq<Record>, limits: seq<nat>, framing: Framing): (rest: seq<Record>)
    decreases |limits|
  {
    if limits == [] then rs else
    Left(rs[SentCount(rs, limits[0], framing)..], limits[1..], framing)
  }

  lemma TakeAndRest<T>(s: seq<T>, n: nat, a: seq<T>, b: seq<T>)
    requires n <= |s| && a + b == s[n..]
    ensures s[..n] + a + b == s
  {
    assert s[..n] + a + b == s[..n] + (a + b);
    assert s == s[..n] + s[n..];
  }

  lemma {:induction false} SeriesConserves(rs: seq<Record>, limits: seq<nat>, framing: Framing)
    ensures Sent(rs, limits, framing) + Left(rs, limits, framing) == rs
    decreases |limits|
  {
    if limits != [] {
      var n := SentCount(rs, limits[0], framing);
      SeriesConserves(rs[n..], limits[1..], framing);
      TakeAndRest(rs, n, Sent(rs[n..], limits[1..], framing), Left(rs[n..], limits[1..], framing));
    }
  }

  lemma {:induction false} SeriesDrains(rs: seq<Record>, limits: seq<nat>, framing: Framing)
    requires |rs| <= |limits|
    requires forall r, limit :: r in rs && limit in limits ==> framing(Encode(r)).0 <= limit
    ensures Left(rs, limits, framing) == []
    decreases |limits|
  {
    if limits != [] {
      var n := SentCount(rs, limits[0], framing);
      assert limits[0] in limits;
      if rs != [] {
        assert rs[0] in rs;
      }
      assert forall r :: r in rs[n..] ==> r in rs;
      assert forall limit :: limit in limits[1..] ==> limit in limits;
      SeriesDrains(rs[n..], limits[1..], framing);
    }
  }

  lemma {:induction false} OversizedEventBlocks(rs: seq<Record>, k: nat, limits: seq<nat>, framing: Framing)
    requires k < |rs|
    requires forall limit :: limit in limits ==> limit < framing(Encode(rs[k])).0
    ensures |Left(rs, limits, framing)| >= |rs| - k
    decreases |limits|
  {
    if limits != [] {
      var n := SentCount(rs, limits[0], framing);
      assert limits[0] in limits;
      CostOfNext(rs, k, framing);
      if n > k {
        CostGrows(rs, k + 1, n, framing);
        assert false;
      }
      assert rs[n..][k - n] == rs[k];
      assert forall limit :: limit in limits[1..] ==> limit in limits;
      OversizedEventBlocks(rs[n..], k - n, limits[1..], framing);
    }
  }

  /**
   As many broadcasts under one limit as there are events send the whole queue, in order, exactly when each
   event fits the limit alone; an event that does not fit holds back itself and everything behind it.
   */
  lemma {:induction false} RepeatedBroadcastDrains(rs: seq<Record>, limit: nat, rounds: nat, framing: Framing)
    requires |rs| <= rounds
    ensures Sent(rs, seq(rounds, _ => limit), framing) == rs <==>
            forall r :: r in rs ==> framing(Encode(r)).0 <= limit
  {
    var limits := seq(rounds, _ => limit);
    assert forall l :: l in limits ==> l == limit;
    SeriesConserves(rs, limits, framing);
    if k :| 0 <= k < |rs| && framing(Encode(rs[k])).0 > limit {
      OversizedEventBlocks(rs, k, limits, framing);
    } else {
      SeriesDrains(rs, limits, framing);
    }
  }

  lemma Associate<T>(a: seq<T>, b: seq<T>, c: seq<T>)
    ensures a + b + c == a + (b + c)
  {
  }

  lemma {:induction false} SeriesAppend(rs: seq<Record>, limits: seq<nat>, limit: nat, framing: Framing)
    ensures var left := Left(rs, limits, framing);
            var n := SentCount(left, limit, framing);
            && Left(rs, limits + [limit], framing) == left[n..]
            && Sent(rs, limits + [limit], framing) == Sent(rs, limits, framing) + left[..n]
    decreases |limits|
  {
    var all := limits + [limit];
    if limits == [] {
      assert all == [limit] && all[1..] == [];
    } else {
      var m, rest := SentCount(rs, limits[0], framing), limits[1..];
      assert all[1..] == rest + [limit] && all[0] == limits[0];
      SeriesAppend(rs[m..], rest, limit, framing);
      var left := Left(rs[m..], rest, framing);
      Associate(rs[..m], Sent(rs[m..], rest, framing), left[..SentCount(left, limit, framing)]);
    }
  }

  lemma EndOfConcat<T>(a: seq<T>, b: seq<T>, j: nat)
    requires |a| <= j < |a| + |b|
    ensures (a + b)[j] in b
  {
    assert (a + b)[j] == b[j - |a|];
  }

  /** Everything from an oversized record on is left. */
  lemma {:induction false} BehindOversizedIsLeft(rs: seq<Record>, k: nat, j: nat, limits: seq<nat>, framing: Framing)
    requires k <= j < |rs|
    requires forall limit :: limit in limits ==> limit < framing(Encode(rs[k])).0
    ensures rs[j] in Left(rs, limits, framing)
  {
    OversizedEventBlocks(rs, k, limits, framing);
    SeriesConserves(rs, limits, framing);
    EndOfConcat(Sent(rs, limits, framing), Left(rs, limits, framing), j);
  }
}
