/** Exponential then binary search for the largest engine that can be built; the upper bound is never stored. */
module SlotSearch {

  function Pow2(k: nat): (p: nat)
    ensures p >= 1
  {
    if k == 0 then 1 else 2 * Pow2(k - 1)
  }

  /** The integer part of the base-two logarithm. */
  function Log2(n: nat): (k: nat)
    requires n >= 1
    ensures Pow2(k) <= n < Pow2(k + 1)
  {
    if n == 1 then 0 else Log2(n / 2) + 1
  }

  lemma {:induction false} Pow2Grows(j: nat, k: nat)
    requires j < k
    ensures 2 * Pow2(j) <= Pow2(k)
  {
    if j + 1 < k {
      Pow2Grows(j, k - 1);
    }
  }

  lemma Pow2Monotone(j: nat, k: nat)
    requires j <= k
    ensures Pow2(j + 1) <= Pow2(k + 1)
  {
    if j < k {
      Pow2Grows(j + 1, k + 1);
    }
  }

  lemma Log2Unique(n: nat, k: nat)
    requires n >= 1 && Pow2(k) <= n < Pow2(k + 1)
    ensures k == Log2(n)
  {
    var m := Log2(n);
    if m < k {
      Pow2Grows(m, k);
    } else if k < m {
      Pow2Grows(k, m);
    }
  }

  /** Whether an engine with so many slots can be built. */
  type Oracle = nat -> bool

  ghost predicate Monotone(succeeds: Oracle)
  {
    forall m, n :: 1 <= m <= n && succeeds(n) ==> succeeds(m)
  }

  const U32_MAX: nat := 0xFFFF_FFFF

  lemma U32MaxIsPow2()
    ensures Pow2(32) == U32_MAX + 1
  {
    assert Pow2(8) == 256;
    assert Pow2(16) == 65536;
    assert Pow2(24) == 16777216;
  }

  datatype Search = Search(growing: bool, last: nat, next: nat)

  /** What a probe leaves; `Overflow` when the next value to try does not fit 32 bits, where the arithmetic panics. */
  datatype Recorded = Overflow | Recorded(search: Search)

  function Record(s: Search, success: bool): (r: Recorded)
    requires s.last <= s.next
  {
    var growing := s.growing && success;
    var diff := if growing then (s.next - s.last) * 2 else (s.next - s.last + 1) / 2;
    if success then
      if s.next + diff > U32_MAX then Overflow else Recorded(Search(growing, s.next, s.next + diff))
    else
      Recorded(Search(growing, s.last, s.next - diff))
  }

  // ---- the phases of a search ----

  datatype Phase =
    | Doubling(k: nat)         // `k` doublings so far, all successful
    | Halving(k: nat, j: nat, m: nat)  // the answer lies in a gap of 2 ** (j + 1) above `last`; its middle is next
    | Rechecking(k: nat)       // closed on `last`, about to try again a value already known to fail
    | Found(k: nat)

  /** Where the search stands; `k` is the logarithm of one more than the answer. */
  ghost predicate InPhase(s: Search, phase: Phase, succeeds: Oracle)
  {
    && phase.k < 32
    && (s.last == 0 || succeeds(s.last))
    && match phase
       case Doubling(k) =>
         s.growing && s.last + 1 == Pow2(k) && s.next + 1 == Pow2(k + 1)
       case Halving(k, j, m) =>
         && !s.growing && j < k
         && s.next == s.last + Pow2(j)
         && s.last + 1 == Shifted(m, j + 1)
         && Pow2(k) <= s.last + 1 && s.last + Pow2(j + 1) < Pow2(k + 1)
         && !succeeds(s.last + Pow2(j + 1))
       case Rechecking(k) =>
         && !s.growing && k > 0
         && s.next == s.last + 1 && s.last % 2 == 0
         && Pow2(k) <= s.last + 1 < Pow2(k + 1)
         && !succeeds(s.last + 1)
       case Found(k) =>
         && s.next == s.last
         && Pow2(k) <= s.last + 1 < Pow2(k + 1)
         && !succeeds(s.last + 1)
  }

  /** An upper bound on the probes still to come. */
  ghost function Rank(phase: Phase): (rank: nat)
    requires phase.k < 32
  {
    match phase
    case Doubling(k) => 100 - k
    case Halving(_, j, _) => 2 + if j < 32 then j else 32
    case Rechecking(_) => 1
    case Found(_) => 0
  }

  /** `m * 2 ** j` */
  function Shifted(m: nat, j: nat): (n: nat)
    decreases j
  {
    if j == 0 then m else 2 * Shifted(m, j - 1)
  }

  lemma {:induction false} ShiftedOne(k: nat)
    ensures Shifted(1, k) == Pow2(k)
  {
    if k > 0 { ShiftedOne(k - 1); }
  }

  lemma {:induction false} ShiftIn(m: nat, j: nat)
    ensures Shifted(m, j + 1) == Shifted(2 * m, j)
    ensures Shifted(m, j + 1) + Pow2(j) == Shifted(2 * m + 1, j)
    decreases j
  {
    if j > 0 { ShiftIn(m, j - 1); }
  }

  /** How many probes it takes to find that `best` is the largest success. */
  function ProbeCount(best: nat): (n: nat)
  {
    2 * Log2(best + 1) + 1 + if best > 0 && best % 2 == 0 then 1 else 0
  }

  lemma ProbeCountAt(best: nat, k: nat)
    requires Pow2(k) <= best + 1 < Pow2(k + 1)
    ensures ProbeCount(best) == 2 * k + 1 + if best > 0 && best % 2 == 0 then 1 else 0
  {
    Log2Unique(best + 1, k);
  }

  /** How many probes have been made. */
  ghost function Spent(s: Search, phase: Phase): int
  {
    match phase
    case Doubling(k) => k
    case Halving(k, j, _) => 2 * k - j
    case Rechecking(k) => 2 * k + 1
    case Found(_) => ProbeCount(s.last)
  }

  lemma FitsU32(k: nat)
    requires k < 32
    ensures Pow2(k + 1) <= U32_MAX + 1
    ensures Pow2(k + 1) == U32_MAX + 1 <==> k == 31
  {
    U32MaxIsPow2();
    if k + 1 < 32 { Pow2Grows(k + 1, 32); }
  }

  lemma RecordGrows(s: Search, gap: nat)
    requires s.growing && s.next == s.last + gap
    ensures Record(s, true) ==
            if s.next + 2 * gap > U32_MAX then Overflow else Recorded(Search(true, s.next, s.next + 2 * gap))
  {
  }

  lemma RecordHalves(s: Search, half: nat, success: bool)
    requires s.next == s.last + 2 * half && !(s.growing && success)
    requires success ==> s.next + half <= U32_MAX
    ensures Record(s, success) ==
            Recorded(if success then Search(false, s.next, s.next + half) else Search(false, s.last, s.last + half))
  {
  }

  lemma DoublingSucceeds(s: Search, k: nat, succeeds: Oracle)
    requires InPhase(s, Doubling(k), succeeds) && succeeds(s.next)
    ensures Record(s, true).Overflow? <==> k == 31
    ensures k < 31 ==> InPhase(Record(s, true).search, Doubling(k + 1), succeeds)
  {
    RecordGrows(s, Pow2(k));
    FitsU32(k);
    if k < 31 { FitsU32(k + 1); }
  }

  lemma FirstProbeFails(s: Search, succeeds: Oracle)
    requires InPhase(s, Doubling(0), succeeds) && !succeeds(s.next)
    ensures Record(s, false) == Recorded(Search(false, 0, 0))
    ensures InPhase(Search(false, 0, 0), Found(0), succeeds)
    ensures ProbeCount(0) == 1
  {
    assert Pow2(0) == 1 && Pow2(1) == 2;
    ProbeCountAt(0, 0);
  }

  lemma {:induction false} DoublingFails(s: Search, k: nat, succeeds: Oracle)
    requires InPhase(s, Doubling(k), succeeds) && !succeeds(s.next) && k > 0
    ensures Record(s, false) == Recorded(Search(false, s.last, s.last + Pow2(k - 1)))
    ensures InPhase(Search(false, s.last, s.last + Pow2(k - 1)), Halving(k, k - 1, 1), succeeds)
  {
    RecordHalves(s, Pow2(k - 1), false);
    ShiftedOne(k);
  }

  lemma DoublingStep(s: Search, k: nat, succeeds: Oracle) returns (phase: Phase)
    requires InPhase(s, Doubling(k), succeeds)
    ensures succeeds(s.next) && s.next == U32_MAX <==> Record(s, succeeds(s.next)).Overflow?
    ensures Record(s, succeeds(s.next)).Recorded? ==>
              && InPhase(Record(s, succeeds(s.next)).search, phase, succeeds)
              && Spent(Record(s, succeeds(s.next)).search, phase) == k + 1
              && phase.k >= k && Rank(phase) < Rank(Doubling(k))
  {
    FitsU32(k);
    if succeeds(s.next) {
      DoublingSucceeds(s, k, succeeds);
      phase := Doubling(k + 1);
    } else if k == 0 {
      FirstProbeFails(s, succeeds);
      phase := Found(0);
    } else {
      DoublingFails(s, k, succeeds);
      phase := Halving(k, k - 1, 1);
    }
  }

  lemma {:induction false} HalvingSucceeds(s: Search, k: nat, j: nat, m: nat, succeeds: Oracle)
    requires InPhase(s, Halving(k, j, m), succeeds) && succeeds(s.next) && j > 0
    ensures Record(s, true) == Recorded(Search(false, s.next, s.next + Pow2(j - 1)))
    ensures InPhase(Search(false, s.next, s.next + Pow2(j - 1)), Halving(k, j - 1, 2 * m + 1), succeeds)
  {
    FitsU32(k);
    RecordHalves(s, Pow2(j - 1), true);
    ShiftIn(m, j);
  }

  lemma {:induction false} HalvingFails(s: Search, k: nat, j: nat, m: nat, succeeds: Oracle)
    requires InPhase(s, Halving(k, j, m), succeeds) && !succeeds(s.next) && j > 0
    ensures Record(s, false) == Recorded(Search(false, s.last, s.last + Pow2(j - 1)))
    ensures InPhase(Search(false, s.last, s.last + Pow2(j - 1)), Halving(k, j - 1, 2 * m), succeeds)
  {
    RecordHalves(s, Pow2(j - 1), false);
    ShiftIn(m, j);
  }

  lemma LastHalvingSucceeds(s: Search, k: nat, m: nat, succeeds: Oracle)
    requires InPhase(s, Halving(k, 0, m), succeeds) && succeeds(s.next)
    ensures Record(s, true) == Recorded(Search(false, s.next, s.next + 1))
    ensures InPhase(Search(false, s.next, s.next + 1), Rechecking(k), succeeds)
  {
    FitsU32(k);
    assert s.last + 1 == Shifted(m, 1) == 2 * Shifted(m, 0) == 2 * m;
  }

  lemma LastHalvingFails(s: Search, k: nat, m: nat, succeeds: Oracle)
    requires InPhase(s, Halving(k, 0, m), succeeds) && !succeeds(s.next)
    ensures Record(s, false) == Recorded(Search(false, s.last, s.last))
    ensures InPhase(Search(false, s.last, s.last), Found(k), succeeds)
    ensures ProbeCount(s.last) == 2 * k + 1
  {
    assert s.last + 1 == Shifted(m, 1) == 2 * Shifted(m, 0) == 2 * m;
    ProbeCountAt(s.last, k);
  }

  /** One step of the binary search, down to the last. */
  lemma HalvingStep(s: Search, k: nat, j: nat, m: nat, succeeds: Oracle)
    returns (s': Search, phase: Phase)
    requires InPhase(s, Halving(k, j, m), succeeds)
    ensures Record(s, succeeds(s.next)) == Recorded(s')
    ensures phase.k == k && InPhase(s', phase, succeeds)
    ensures Spent(s', phase) == 2 * k - j + 1
    ensures Rank(phase) < Rank(Halving(k, j, m))
  {
    if j == 0 {
      if succeeds(s.next) {
        LastHalvingSucceeds(s, k, m, succeeds);
        s', phase := Search(false, s.next, s.next + 1), Rechecking(k);
      } else {
        LastHalvingFails(s, k, m, succeeds);
        s', phase := Search(false, s.last, s.last), Found(k);
      }
    } else {
      if succeeds(s.next) {
        HalvingSucceeds(s, k, j, m, succeeds);
        s', phase := Search(false, s.next, s.next + Pow2(j - 1)), Halving(k, j - 1, 2 * m + 1);
      } else {
        HalvingFails(s, k, j, m, succeeds);
        s', phase := Search(false, s.last, s.last + Pow2(j - 1)), Halving(k, j - 1, 2 * m);
      }
    }
  }

  lemma RecheckingStep(s: Search, k: nat, succeeds: Oracle)
    requires InPhase(s, Rechecking(k), succeeds)
    ensures Record(s, succeeds(s.next)).Recorded?
    ensures InPhase(Record(s, succeeds(s.next)).search, Found(k), succeeds)
    ensures Spent(Record(s, succeeds(s.next)).search, Found(k)) == 2 * k + 2
  {
    ProbeCountAt(s.last, k);
    assert Pow2(k) == 2 * Pow2(k - 1);
  }

  /** Every probe advances the search by one phase step, and only a success at the largest 32-bit value overflows. */
  lemma ProbeStep(s: Search, phase: Phase, succeeds: Oracle) returns (phase': Phase)
    requires InPhase(s, phase, succeeds) && s.last != s.next
    ensures s.next < Pow2(phase.k + 1)
    ensures succeeds(s.next) && s.next == U32_MAX <==> Record(s, succeeds(s.next)).Overflow?
    ensures Record(s, succeeds(s.next)).Recorded? ==>
              && InPhase(Record(s, succeeds(s.next)).search, phase', succeeds)
              && Spent(Record(s, succeeds(s.next)).search, phase') == Spent(s, phase) + 1
              && Rank(phase') < Rank(phase) && phase.k <= phase'.k
  {
    FitsU32(phase.k);
    match phase {
      case Doubling(k) => phase' := DoublingStep(s, k, succeeds);
      case Halving(k, j, m) => var _, next := HalvingStep(s, k, j, m, succeeds); phase' := next;
      case Rechecking(k) => RecheckingStep(s, k, succeeds); phase' := Found(k);
    }
  }

  /** The search after `n` turns of the driving loop; it stays where it is once the loop has ended. */
  function SearchAfter(succeeds: Oracle, n: nat): (r: Recorded)
    ensures r.Recorded? ==> r.search.last <= r.search.next
    decreases n
  {
    if n == 0 then Recorded(Search(true, 0, 1)) else
    var r := SearchAfter(succeeds, n - 1);
    if r.Overflow? || r.search.last == r.search.next then r else Record(r.search, succeeds(r.search.next))
  }

  lemma {:induction false} ReachedPhase(succeeds: Oracle, n: nat) returns (phase: Phase)
    ensures var r := SearchAfter(succeeds, n); r.Recorded? ==> InPhase(r.search, phase, succeeds)
    decreases n
  {
    phase := Doubling(0);
    if n > 0 {
      var before := SearchAfter(succeeds, n - 1);
      phase := ReachedPhase(succeeds, n - 1);
      if before.Recorded? && before.search.last != before.search.next {
        phase := ProbeStep(before.search, phase, succeeds);
      }
    }
  }

  /** After any number of probes, whatever the oracle answers, the gap is zero or a power of two. */
  lemma {:induction false} GapIsPowerOfTwo(succeeds: Oracle, n: nat)
    ensures var r := SearchAfter(succeeds, n);
            r.Recorded? ==> r.search.next == r.search.last || exists j :: r.search.next - r.search.last == Pow2(j)
  {
    var phase := ReachedPhase(succeeds, n);
    var r := SearchAfter(succeeds, n);
    if r.Recorded? {
      match phase {
        case Doubling(k) => assert r.search.next - r.search.last == Pow2(k);
        case Halving(_, j, _) => assert r.search.next - r.search.last == Pow2(j);
        case Rechecking(_) => assert r.search.next - r.search.last == Pow2(0);
        case Found(_) =>
      }
    }
  }

  lemma Conclusion(s: Search, phase: Phase, succeeds: Oracle)
    requires InPhase(s, phase, succeeds) && s.last == s.next
    ensures Spent(s, phase) == ProbeCount(s.last)
    ensures Pow2(phase.k + 1) <= 2 * s.last + 2
    ensures (s.last == 0 || succeeds(s.last)) && !succeeds(s.last + 1) && s.last < U32_MAX
  {
    FitsU32(phase.k);
  }

  /** Every value tried is positive and below the bound. */
  ghost predicate Within(probes: seq<nat>, bound: nat)
  {
    forall i :: 0 <= i < |probes| ==> 1 <= probes[i] < bound
  }

  lemma WithinNext(probes: seq<nat>, size: nat, k: nat, k': nat)
    requires Within(probes, Pow2(k + 1)) && 1 <= size < Pow2(k + 1) && k <= k'
    ensures Within(probes + [size], Pow2(k' + 1))
  {
    Pow2Monotone(k, k');
  }

  class ExponentialSearch {
    var growing: bool
    var last: nat
    var next: nat

    function State(): (s: Search)
      reads this
    {
      Search(growing, last, next)
    }

    constructor ()
      ensures State() == Search(true, 0, 1)
    {
      growing, last, next := true, 0, 1;
    }

    /** `false` when the 32-bit sum overflows, which panics. */
    method RecordProbe(success: bool) returns (ok: bool)
      requires last <= next
      modifies this
      ensures ok <==> Record(old(State()), success).Recorded?
      ensures ok ==> State() == Record(old(State()), success).search
    {
      if !success {
        growing := false;
      }
      var diff := if growing then (next - last) * 2 else (next - last + 1) / 2;
      if success {
        if next + diff > U32_MAX {
          return false;
        }
        last := next;
        next := next + diff;
      } else {
        next := next - diff;
      }
      ok := true;
    }
  }

  datatype Pool = Pool(numMemories: nat, mappedBytes: nat)
  datatype Outcome = Panic | Probed(pool: Pool)

  /**
   For any oracle: a success, or zero, that the next larger size does not share, with the bytes of the probe
   there, found after exactly `ProbeCount` probes, none of them beyond twice the answer plus one. For a monotone
   oracle that is the largest success, and the search panics if and only if the largest 32-bit value succeeds.
   */
  method ProbeEngineSize(succeeds: Oracle, bytes: nat -> nat) returns (r: Outcome, ghost probes: seq<nat>)
    ensures r.Panic? ==> succeeds(U32_MAX)
    ensures r.Probed? ==>
              var best := r.pool.numMemories;
              && (best == 0 || succeeds(best)) && !succeeds(best + 1) && best < U32_MAX
              && r.pool.mappedBytes == (if best == 0 then 0 else bytes(best))
              && |probes| == ProbeCount(best)
              && forall i :: 0 <= i < |probes| ==> 1 <= probes[i] <= 2 * best + 1
    ensures Monotone(succeeds) ==>
              && (r.Panic? <==> succeeds(U32_MAX))
              && (r.Probed? ==> forall n :: n >= 1 ==> (succeeds(n) <==> n <= r.pool.numMemories))
  {
    var search := new ExponentialSearch();
    var mappedBytes := 0;
    ghost var phase := Doubling(0);
    probes := [];
    while search.last != search.next
      invariant fresh(search)
      invariant InPhase(search.State(), phase, succeeds) && Spent(search.State(), phase) == |probes|
      invariant mappedBytes == if search.last == 0 then 0 else bytes(search.last)
      invariant Within(probes, Pow2(phase.k + 1))
      decreases Rank(phase)
    {
      var size := search.next;
      var success := succeeds(size);
      ghost var phase' := ProbeStep(search.State(), phase, succeeds);
      if success {
        mappedBytes := bytes(size);
      }
      var ok := search.RecordProbe(success);
      if !ok {
        return Panic, probes;
      }
      WithinNext(probes, size, phase.k, phase'.k);
      probes := probes + [size];
      phase := phase';
    }
    Conclusion(search.State(), phase, succeeds);
    r := Probed(Pool(search.next, mappedBytes));
  }
}
