/** The CPU-time tracker: one thread polls a measured future while any number of threads read the duration. */
module CpuTime {
  import opened Options

  /** Where the polling thread is; times are nanoseconds of the shared monotone clock. */
  datatype Poller =
    | Idle
    | Started(start: nat)            // read the clock, `last_start` not yet set
    | Running(start: nat)            // `last_start` set, the inner future runs
    | Ended(start: nat, end: nat)    // read the clock again, `last_start` not yet taken
    | Cleared(elapsed: nat)          // `last_start` taken, `acc` not yet raised

  /** Where a call of `duration` is. The clock is read with the lock still held. */
  datatype Reader =
    | Entered
    | Loaded(acc: nat)
    | Locked(acc: nat, lastStart: Option<nat>)
    | Returned(duration: nat)

  type ReaderId = nat

  /** `settled` is bookkeeping only: the time from start to clearing of every poll whose `last_start` was taken. */
  datatype Tracker = Tracker(
    clock: nat,
    acc: nat,
    lastStart: Option<nat>,
    lock: Option<ReaderId>,
    poller: Poller,
    readers: map<ReaderId, Reader>,
    settled: nat)

  datatype Action =
    | Tick(elapsed: nat)
    | Poll
    | Call(id: ReaderId)
    | Read(id: ReaderId)

  const INITIAL := Tracker(0, 0, None, None, Idle, map[], 0)

  /** The next step of the polling thread; it waits while a reader holds the lock it needs. */
  function PollStep(s: Tracker): (s': Tracker)
  {
    match s.poller
    case Idle => s.(poller := Started(s.clock))
    case Started(start) =>
      if s.lock.Some? then s else s.(lastStart := Some(start), poller := Running(start))
    case Running(start) => s.(poller := Ended(start, s.clock))
    case Ended(start, end) =>
      if s.lock.Some? || s.clock < start || end < start then s
      else s.(lastStart := None, poller := Cleared(end - start), settled := s.settled + (s.clock - start))
    case Cleared(elapsed) => s.(acc := s.acc + elapsed, poller := Idle)
  }

  function ReadStep(s: Tracker, id: ReaderId): (s': Tracker)
  {
    if id !in s.readers then s else
    match s.readers[id]
    case Entered => s.(readers := s.readers[id := Loaded(s.acc)])
    case Loaded(acc) =>
      if s.lock.Some? then s
      else s.(lock := Some(id), readers := s.readers[id := Locked(acc, s.lastStart)])
    case Locked(acc, lastStart) =>
      var running := if lastStart.Some? && lastStart.value <= s.clock then s.clock - lastStart.value else 0;
      s.(lock := None, readers := s.readers[id := Returned(acc + running)])
    case Returned(_) => s
  }

  /** One atomic step of some thread, or of time. An action whose thread cannot move changes nothing. */
  function Step(s: Tracker, action: Action): (s': Tracker)
  {
    match action
    case Tick(elapsed) => s.(clock := s.clock + elapsed)
    case Poll => PollStep(s)
    case Call(id) =>
      if id in s.readers && !s.readers[id].Returned? then s else s.(readers := s.readers[id := Entered])
    case Read(id) => ReadStep(s, id)
  }

  function Run(s: Tracker, actions: seq<Action>): (s': Tracker)
    decreases |actions|
  {
    if actions == [] then s else Run(Step(s, actions[0]), actions[1..])
  }

  /** The total time from each poll's start to the clearing of `last_start`, up to now. */
  function Busy(s: Tracker): (total: int)
  {
    s.settled + match s.poller
                case Idle => 0
                case Started(start) => s.clock - start
                case Running(start) => s.clock - start
                case Ended(start, _) => s.clock - start
                case Cleared(_) => 0
  }

  /** The measured time: whole polls from start to end, and the current poll up to now. */
  function Measured(s: Tracker): (total: int)
  {
    s.acc + match s.poller
            case Idle => 0
            case Started(start) => s.clock - start
            case Running(start) => s.clock - start
            case Ended(start, end) => end - start
            case Cleared(elapsed) => elapsed
  }

  /** What a read returns when no other thread moves during it. */
  function Duration(s: Tracker): (total: int)
  {
    s.acc + if s.lastStart.Some? then s.clock - s.lastStart.value else 0
  }

  // ---- the invariant ----

  ghost predicate PollerInv(s: Tracker)
  {
    match s.poller
    case Idle => s.lastStart == None && s.acc <= s.settled
    case Started(start) => s.lastStart == None && start <= s.clock && s.acc <= s.settled
    case Running(start) => s.lastStart == Some(start) && start <= s.clock && s.acc <= s.settled
    case Ended(start, end) => s.lastStart == Some(start) && start <= end <= s.clock && s.acc <= s.settled
    case Cleared(elapsed) => s.lastStart == None && s.acc + elapsed <= s.settled
  }

  ghost predicate ReaderInv(s: Tracker, id: ReaderId)
    requires id in s.readers
  {
    match s.readers[id]
    case Entered => true
    case Loaded(acc) => acc <= s.acc
    case Locked(acc, lastStart) => acc <= s.acc && s.lock == Some(id) && lastStart == s.lastStart
    case Returned(duration) => duration <= Busy(s)
  }

  ghost predicate Inv(s: Tracker)
  {
    PollerInv(s) && forall id :: id in s.readers ==> ReaderInv(s, id)
  }

  lemma PollKeepsInv(s: Tracker)
    requires Inv(s)
    ensures Inv(PollStep(s)) && Busy(s) <= Busy(PollStep(s)) && Measured(s) <= Measured(PollStep(s))
  {
    var s' := PollStep(s);
    assert PollerInv(s') && Busy(s) <= Busy(s');
    forall id | id in s'.readers
      ensures ReaderInv(s', id)
    {
      assert ReaderInv(s, id);
    }
  }

  lemma ReadKeepsInv(s: Tracker, id: ReaderId)
    requires Inv(s)
    ensures Inv(ReadStep(s, id)) && Busy(s) == Busy(ReadStep(s, id)) && Measured(s) == Measured(ReadStep(s, id))
  {
    var s' := ReadStep(s, id);
    forall other | other in s'.readers
      ensures ReaderInv(s', other)
    {
      assert ReaderInv(s, other);
    }
  }

  lemma StepKeepsInv(s: Tracker, action: Action)
    requires Inv(s)
    ensures Inv(Step(s, action))
    ensures Busy(s) <= Busy(Step(s, action))
    ensures Measured(s) <= Measured(Step(s, action))
  {
    match action {
      case Poll => PollKeepsInv(s);
      case Read(id) => ReadKeepsInv(s, id);
      case Call(_) =>
      case Tick(elapsed) =>
        var s' := Step(s, action);
        assert forall id :: id in s.readers ==> ReaderInv(s, id) && s'.readers[id] == s.readers[id];
    }
  }

  lemma {:induction false} RunKeepsInv(s: Tracker, actions: seq<Action>)
    requires Inv(s)
    ensures Inv(Run(s, actions))
    ensures Busy(s) <= Busy(Run(s, actions))
    ensures Measured(s) <= Measured(Run(s, actions))
    decreases |actions|
  {
    if actions != [] {
      StepKeepsInv(s, actions[0]);
      RunKeepsInv(Step(s, actions[0]), actions[1..]);
    }
  }

  // ---- time by the ticks of the run ----

  /** Whether a tick at this point passes between a poll's start and the clearing of `last_start`. */
  predicate IsBusy(s: Tracker)
  {
    s.poller.Started? || s.poller.Running? || s.poller.Ended?
  }

  /** Whether it passes between a poll's two readings of the clock. */
  predicate IsMeasured(s: Tracker)
  {
    s.poller.Started? || s.poller.Running?
  }

  /** The ticks of a run that pass while a condition holds. */
  ghost function TimeWhile(actions: seq<Action>, holds: Tracker -> bool): (total: nat)
  {
    if actions == [] then 0 else
    var front, last := actions[..|actions| - 1], actions[|actions| - 1];
    TimeWhile(front, holds) + if last.Tick? && holds(Run(INITIAL, front)) then last.elapsed else 0
  }

  ghost function BusyTime(actions: seq<Action>): (total: nat)
  {
    TimeWhile(actions, IsBusy)
  }

  ghost function MeasuredTime(actions: seq<Action>): (total: nat)
  {
    TimeWhile(actions, IsMeasured)
  }

  lemma TotalsOfStep(s: Tracker, action: Action)
    requires Inv(s)
    ensures Busy(Step(s, action)) == Busy(s) + if action.Tick? && IsBusy(s) then action.elapsed else 0
    ensures Measured(Step(s, action)) == Measured(s) + if action.Tick? && IsMeasured(s) then action.elapsed else 0
  {
  }

  lemma {:induction false} RunNext(actions: seq<Action>, action: Action)
    ensures Run(INITIAL, actions + [action]) == Step(Run(INITIAL, actions), action)
  {
    RunConcat(INITIAL, actions, [action]);
    assert Run(Run(INITIAL, actions), [action]) == Run(Step(Run(INITIAL, actions), action), []);
  }

  /** The totals kept with the state are the ticks of the run that passed inside polls. */
  lemma {:induction false} TotalsAreTicks(actions: seq<Action>)
    ensures Busy(Run(INITIAL, actions)) == BusyTime(actions)
    ensures Measured(Run(INITIAL, actions)) == MeasuredTime(actions)
  {
    if actions != [] {
      var front, last := actions[..|actions| - 1], actions[|actions| - 1];
      TotalsAreTicks(front);
      assert actions == front + [last];
      RunNext(front, last);
      RunKeepsInv(INITIAL, front);
      TotalsOfStep(Run(INITIAL, front), last);
    }
  }

  // ---- what a reader may conclude ----

  /**
   In every interleaving, no call of `duration` returns more than the ticks that passed between the start of a
   poll and the clearing of `last_start`; so the cut-off at 1000 ms never comes early.
   */
  lemma {:induction false} NoOverCount(actions: seq<Action>, id: ReaderId)
    requires id in Run(INITIAL, actions).readers && Run(INITIAL, actions).readers[id].Returned?
    ensures Run(INITIAL, actions).readers[id].duration <= BusyTime(actions)
    ensures Run(INITIAL, actions).readers[id].duration > 1000 * 1_000_000 ==> BusyTime(actions) > 1000 * 1_000_000
  {
    RunKeepsInv(INITIAL, actions);
    TotalsAreTicks(actions);
    assert ReaderInv(Run(INITIAL, actions), id);
  }

  /**
   An undisturbed read is at most the busy time; it equals the measured time between polls and while the
   inner future runs; and it misses time exactly while a poll that has taken time has not yet been announced, or
   has been cleared but not yet added.
   */
  lemma {:induction false} UndisturbedRead(actions: seq<Action>)
    ensures var s := Run(INITIAL, actions);
            && Duration(s) <= BusyTime(actions)
            && (s.poller.Idle? || s.poller.Running? ==> Duration(s) == MeasuredTime(actions))
            && (Duration(s) < MeasuredTime(actions) <==>
                  (s.poller.Started? && s.poller.start < s.clock) || (s.poller.Cleared? && s.poller.elapsed > 0))
  {
    RunKeepsInv(INITIAL, actions);
    TotalsAreTicks(actions);
  }

  // ---- calls made while the poller stands still ----

  /** Between polls, or inside the future: where code on the polling thread can call `duration`. */
  predicate AtRest(s: Tracker)
  {
    s.poller.Idle? || s.poller.Running?
  }

  /** The call is under way or over; once over, it returned something measured between `low` and now. */
  ghost predicate InCall(s: Tracker, id: ReaderId, low: int)
  {
    && Inv(s) && AtRest(s) && low <= Measured(s)
    && id in s.readers
    && match s.readers[id]
       case Entered => true
       case Loaded(acc) => acc == s.acc
       case Locked(acc, _) => acc == s.acc
       case Returned(duration) => low <= duration <= Measured(s)
  }

  lemma StepKeepsCall(s: Tracker, action: Action, id: ReaderId, low: int)
    requires InCall(s, id, low) && action != Poll
    ensures InCall(Step(s, action), id, low)
  {
    StepKeepsInv(s, action);
    assert ReaderInv(s, id);
  }

  lemma {:induction false} RunKeepsCall(s: Tracker, actions: seq<Action>, id: ReaderId, low: int)
    requires InCall(s, id, low) && Poll !in actions
    ensures InCall(Run(s, actions), id, low)
    decreases |actions|
  {
    if actions != [] {
      assert actions[0] != Poll;
      StepKeepsCall(s, actions[0], id, low);
      RunKeepsCall(Step(s, actions[0]), actions[1..], id, low);
    }
  }

  /**
   A call made while the poller stands still returns a time measured between its beginning and its end,
   whatever the clock and the other readers do meanwhile.
   */
  lemma {:induction false} CallIsAccurate(actions: seq<Action>, more: seq<Action>, id: ReaderId)
    requires AtRest(Run(INITIAL, actions)) && Poll !in more
    requires id in Run(INITIAL, actions).readers && Run(INITIAL, actions).readers[id].Entered?
    ensures var s, s' := Run(INITIAL, actions), Run(Run(INITIAL, actions), more);
            && AtRest(s') && id in s'.readers
            && (s'.readers[id].Returned? ==>
                  MeasuredTime(actions) <= s'.readers[id].duration <= MeasuredTime(actions + more))
  {
    var s := Run(INITIAL, actions);
    RunKeepsInv(INITIAL, actions);
    RunKeepsCall(s, more, id, Measured(s));
    RunConcat(INITIAL, actions, more);
    TotalsAreTicks(actions);
    TotalsAreTicks(actions + more);
  }

  /** A call made between polls that also returns between the same polls is exact, whatever other readers do. */
  lemma {:induction false} ExactBetweenPolls(actions: seq<Action>, more: seq<Action>, id: ReaderId)
    requires Run(INITIAL, actions).poller.Idle?
    requires id in Run(INITIAL, actions).readers && Run(INITIAL, actions).readers[id].Entered?
    requires Poll !in more
    ensures var s' := Run(Run(INITIAL, actions), more);
            && id in s'.readers
            && (s'.readers[id].Returned? ==>
                  s'.readers[id].duration == MeasuredTime(actions) == MeasuredTime(actions + more))
  {
    CallIsAccurate(actions, more, id);
    NothingMeasured(Run(INITIAL, actions), more);
    RunConcat(INITIAL, actions, more);
    TotalsAreTicks(actions);
    TotalsAreTicks(actions + more);
  }

  lemma {:induction false} NothingMeasured(s: Tracker, actions: seq<Action>)
    requires s.poller.Idle? && Poll !in actions
    ensures Measured(Run(s, actions)) == Measured(s)
    decreases |actions|
  {
    if actions != [] {
      assert actions[0] != Poll;
      NothingMeasured(Step(s, actions[0]), actions[1..]);
    }
  }

  /**
   Calls on the polling thread never go down: of two calls, each made and answered while the poller stands
   still, with anything in between, the later one returns at least what the earlier one did.
   */
  lemma {:induction false} MonotoneOnPollingThread(actions: seq<Action>, first: seq<Action>, id: ReaderId,
                                                   between: seq<Action>, second: seq<Action>, id': ReaderId)
    requires Poll !in first && Poll !in second
    requires var s := Run(INITIAL, actions); AtRest(s) && id in s.readers && s.readers[id].Entered?
    requires var s := Run(INITIAL, actions + first + between); AtRest(s) && id' in s.readers && s.readers[id'].Entered?
    ensures var s, s' := Run(INITIAL, actions + first), Run(INITIAL, actions + first + between + second);
            && id in s.readers && id' in s'.readers
            && (s.readers[id].Returned? && s'.readers[id'].Returned? ==>
                  s.readers[id].duration <= s'.readers[id'].duration)
  {
    RunConcat(INITIAL, actions, first);
    RunConcat(INITIAL, actions + first, between);
    RunConcat(INITIAL, actions + first + between, second);
    CallIsAccurate(actions, first, id);
    CallIsAccurate(actions + first + between, second, id');
    RunKeepsInv(INITIAL, actions + first);
    RunKeepsInv(Run(INITIAL, actions + first), between);
    TotalsAreTicks(actions + first);
    TotalsAreTicks(actions + first + between);
  }

  // ---- undisturbed reads ----

  lemma {:induction false} RunConcat(s: Tracker, actions: seq<Action>, more: seq<Action>)
    ensures Run(s, actions + more) == Run(Run(s, actions), more)
    decreases |actions|
  {
    if actions == [] {
      assert actions + more == more;
    } else {
      assert (actions + more)[1..] == actions[1..] + more;
      RunConcat(Step(s, actions[0]), actions[1..], more);
    }
  }

  lemma {:induction false} RunTwo(s: Tracker, a: Action, b: Action)
    ensures Run(s, [a, b]) == Step(Step(s, a), b)
  {
    assert [a, b][1..] == [b];
    assert Run(Step(s, a), [b]) == Run(Step(Step(s, a), b), []);
  }

  function WholeRead(id: ReaderId): (actions: seq<Action>)
  {
    [Call(id), Read(id)] + [Read(id), Read(id)]
  }

  /** A call whose steps are not interleaved returns `Duration` and leaves the tracker as it was. */
  lemma {:induction false} WholeReadReturnsDuration(s: Tracker, id: ReaderId)
    requires Inv(s) && s.lock == None && id !in s.readers
    ensures Run(s, WholeRead(id)) == s.(readers := s.readers[id := Returned(Duration(s))])
  {
    RunConcat(s, [Call(id), Read(id)], [Read(id), Read(id)]);
    RunTwo(s, Call(id), Read(id));
    var loaded := Step(Step(s, Call(id)), Read(id));
    assert loaded == s.(readers := s.readers[id := Loaded(s.acc)]);
    RunTwo(loaded, Read(id), Read(id));
    var locked := Step(loaded, Read(id));
    assert locked == s.(lock := Some(id), readers := s.readers[id := Locked(s.acc, s.lastStart)]);
  }

  /**
   On another thread the duration can go back: for every length of the first poll there is a run in which one
   read returns that length and a later one returns zero.
   */
  lemma ConcurrentReadsCanGoBack(length: nat) returns (actions: seq<Action>, more: seq<Action>)
    ensures var s, s' := Run(INITIAL, actions), Run(Run(INITIAL, actions), more);
            && 0 in s.readers && s.readers[0] == Returned(length)
            && 1 !in s.readers && 1 in s'.readers && s'.readers[1] == Returned(0)
  {
    actions := [Poll, Poll] + ([Tick(length), Poll] + WholeRead(0));
    more := [Poll] + WholeRead(1);
    RunConcat(INITIAL, [Poll, Poll], [Tick(length), Poll] + WholeRead(0));
    RunTwo(INITIAL, Poll, Poll);
    var running := Step(Step(INITIAL, Poll), Poll);
    RunConcat(running, [Tick(length), Poll], WholeRead(0));
    RunTwo(running, Tick(length), Poll);
    var ended := Step(Step(running, Tick(length)), Poll);
    assert ended == Tracker(length, 0, Some(0), None, Ended(0, length), map[], 0);
    WholeReadReturnsDuration(ended, 0);
    var s := ended.(readers := map[0 := Returned(length)]);
    RunConcat(s, [Poll], WholeRead(1));
    assert Run(s, [Poll]) == Run(Step(s, Poll), []);
    WholeReadReturnsDuration(Step(s, Poll), 1);
  }

  /**
   Time read between the end of a poll and its clearing is never added: for every length and delay there is a
   run in which a read returns both together and an exact one between polls later returns the length alone.
   */
  lemma DelayIsTakenBack(length: nat, delay: nat) returns (actions: seq<Action>, more: seq<Action>)
    ensures var s, s' := Run(INITIAL, actions), Run(Run(INITIAL, actions), more);
            && 0 in s.readers && s.readers[0] == Returned(length + delay)
            && 1 !in s.readers && 1 in s'.readers && s'.readers[1] == Returned(length) && s'.poller.Idle?
  {
    actions := [Poll, Poll] + ([Tick(length), Poll] + ([Tick(delay)] + WholeRead(0)));
    more := [Poll, Poll] + WholeRead(1);
    RunConcat(INITIAL, [Poll, Poll], [Tick(length), Poll] + ([Tick(delay)] + WholeRead(0)));
    RunTwo(INITIAL, Poll, Poll);
    var running := Step(Step(INITIAL, Poll), Poll);
    RunConcat(running, [Tick(length), Poll], [Tick(delay)] + WholeRead(0));
    RunTwo(running, Tick(length), Poll);
    var ended := Step(Step(running, Tick(length)), Poll);
    RunConcat(ended, [Tick(delay)], WholeRead(0));
    assert Run(ended, [Tick(delay)]) == Run(Step(ended, Tick(delay)), []);
    assert ended == Tracker(length, 0, Some(0), None, Ended(0, length), map[], 0);
    var late := Step(ended, Tick(delay));
    assert late == Tracker(length + delay, 0, Some(0), None, Ended(0, length), map[], 0);
    WholeReadReturnsDuration(late, 0);
    var s := late.(readers := map[0 := Returned(length + delay)]);
    RunConcat(s, [Poll, Poll], WholeRead(1));
    RunTwo(s, Poll, Poll);
    WholeReadReturnsDuration(Step(Step(s, Poll), Poll), 1);
  }

  // ---- when a duration can be undercut ----

  /** No call that has yet to read anything will ever return less than `d`. */
  ghost predicate NeverUndercut(s: Tracker, d: int)
  {
    forall more: seq<Action>, rest: seq<Action>, id: ReaderId :: ReturnsAtLeast(s, more, rest, id, d)
  }

  /** A call entered after `more`, if it is answered after `rest`, returns at least `d`. */
  ghost predicate ReturnsAtLeast(s: Tracker, more: seq<Action>, rest: seq<Action>, id: ReaderId, d: int)
  {
    var entered, answered := Run(s, more), Run(Run(s, more), rest);
    id in entered.readers && entered.readers[id].Entered? && id in answered.readers && answered.readers[id].Returned?
    ==> d <= answered.readers[id].duration
  }

  ghost predicate AtLeast(s: Tracker, id: ReaderId, d: int)
  {
    && d <= s.acc && id in s.readers
    && match s.readers[id]
       case Entered => true
       case Loaded(acc) => d <= acc
       case Locked(acc, _) => d <= acc
       case Returned(duration) => d <= duration
  }

  lemma {:induction false} AccGrows(s: Tracker, actions: seq<Action>)
    ensures s.acc <= Run(s, actions).acc
    decreases |actions|
  {
    if actions != [] {
      AccGrows(Step(s, actions[0]), actions[1..]);
    }
  }

  lemma {:induction false} StaysAtLeast(s: Tracker, actions: seq<Action>, id: ReaderId, d: int)
    requires AtLeast(s, id, d)
    ensures AtLeast(Run(s, actions), id, d)
    decreases |actions|
  {
    if actions != [] {
      StaysAtLeast(Step(s, actions[0]), actions[1..], id, d);
    }
  }

  /** Whoever holds the lock is about to read the clock. */
  ghost predicate LockInv(s: Tracker)
  {
    s.lock.Some? ==> s.lock.value in s.readers && s.readers[s.lock.value].Locked?
  }

  lemma {:induction false} RunKeepsLockInv(s: Tracker, actions: seq<Action>)
    requires Inv(s) && LockInv(s)
    ensures LockInv(Run(s, actions))
    decreases |actions|
  {
    if actions != [] {
      StepKeepsInv(s, actions[0]);
      assert forall id :: id in s.readers ==> ReaderInv(s, id);
      RunKeepsLockInv(Step(s, actions[0]), actions[1..]);
    }
  }

  lemma {:induction false} FreshReader(readers: set<ReaderId>) returns (id: ReaderId)
    ensures forall other :: other in readers ==> other < id
    decreases readers
  {
    id := 0;
    if readers != {} {
      var one :| one in readers;
      var above := FreshReader(readers - {one});
      assert forall other :: other in readers ==> other == one || other in readers - {one};
      id := if above > one then above else one + 1;
    }
  }

  /** The actions by which the lock is released. */
  function Unlocking(s: Tracker): (actions: seq<Action>)
  {
    if s.lock.Some? then [Read(s.lock.value)] else []
  }

  lemma {:induction false} LockIsReleased(s: Tracker)
    requires Inv(s) && LockInv(s)
    ensures var s' := Run(s, Unlocking(s));
            && Inv(s') && s'.lock == None && s'.acc == s.acc && s'.lastStart == s.lastStart && s'.poller == s.poller
            && s'.clock == s.clock && s'.readers.Keys == s.readers.Keys
  {
    RunKeepsInv(s, Unlocking(s));
    if s.lock.Some? {
      assert Run(s, Unlocking(s)) == Run(Step(s, Read(s.lock.value)), []);
      assert s.lock.value in s.readers;
    }
  }

  /** The actions by which a running poll ends and its start is cleared, in no time. */
  function Clearing(s: Tracker): (actions: seq<Action>)
  {
    match s.poller
    case Running(_) => [Poll, Poll]
    case Ended(_, _) => [Poll] + []
    case _ => []
  }

  lemma {:induction false} StartIsCleared(s: Tracker)
    requires Inv(s) && s.lock == None
    ensures var s' := Run(s, Clearing(s));
            Inv(s') && s'.lock == None && s'.acc == s.acc && s'.lastStart == None && s'.readers == s.readers
  {
    RunKeepsInv(s, Clearing(s));
    if s.poller.Running? {
      RunTwo(s, Poll, Poll);
    } else if s.poller.Ended? {
      assert Run(s, [Poll]) == Run(Step(s, Poll), []);
    }
  }

  /** From any reachable state some later call returns just what has been added up so far. */
  lemma SomeCallReturnsAcc(s: Tracker) returns (more: seq<Action>, rest: seq<Action>, id: ReaderId)
    requires Inv(s) && LockInv(s)
    ensures id in Run(s, more).readers && Run(s, more).readers[id].Entered?
    ensures var s' := Run(Run(s, more), rest); id in s'.readers && s'.readers[id] == Returned(s.acc)
  {
    id := FreshReader(s.readers.Keys);
    LockIsReleased(s);
    var unlocked := Run(s, Unlocking(s));
    StartIsCleared(unlocked);
    var cleared := Run(unlocked, Clearing(unlocked));
    more := Unlocking(s) + (Clearing(unlocked) + [Call(id)]);
    rest := [Read(id)] + [Read(id), Read(id)];
    RunConcat(s, Unlocking(s), Clearing(unlocked) + [Call(id)]);
    RunConcat(unlocked, Clearing(unlocked), [Call(id)]);
    assert id !in cleared.readers;
    var entered := Step(cleared, Call(id));
    assert Run(cleared, [Call(id)]) == Run(entered, []) == entered;
    assert Run(s, more) == entered;
    assert WholeRead(id) == [Call(id)] + rest;
    RunConcat(cleared, [Call(id)], rest);
    WholeReadReturnsDuration(cleared, id);
  }

  /**
   In every reachable state, a duration can never be undercut by a call made later, on whatever thread and in
   whatever interleaving, if and only if it is within what finished polls have added up so far.
   */
  lemma {:induction false} UndercutExactly(actions: seq<Action>, d: int)
    ensures NeverUndercut(Run(INITIAL, actions), d) <==> d <= Run(INITIAL, actions).acc
  {
    var s := Run(INITIAL, actions);
    RunKeepsInv(INITIAL, actions);
    RunKeepsLockInv(INITIAL, actions);
    if d <= s.acc {
      forall more: seq<Action>, rest: seq<Action>, id: ReaderId
        ensures ReturnsAtLeast(s, more, rest, id, d)
      {
        AccGrows(s, more);
        var entered := Run(s, more);
        if id in entered.readers && entered.readers[id].Entered? {
          StaysAtLeast(entered, rest, id, d);
        }
      }
    } else {
      var more, rest, id := SomeCallReturnsAcc(s);
      assert !ReturnsAtLeast(s, more, rest, id, d);
    }
  }
}
