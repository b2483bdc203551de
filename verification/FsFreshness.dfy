/** Many gets, split into their steps, interleaved with writers of the files. */
module FsFreshness {
  import opened Options
  import opened Bytes
  import opened LruStore
  import opened AdaptCache
  import opened FsCache

  datatype File = File(content: seq<byte>, stamp: Stamp)

  type CallId = nat

  /** Where one call of `get` is. */
  datatype Call<V> =
    | Looked(path: string, cached: Option<Entry<V, Stamp>>)  // the lookup has moved the entry to the front
    | Missed(path: string)                                   // the first metadata did not match
    | Statted(path: string, stamp: Stamp)                    // the second metadata is in hand
    | Converted(path: string, entry: Entry<V, Stamp>)        // read and converted, not yet stored
    | Returned(path: string, result: Result<V>)

  type Files = map<string, File>

  datatype World<V> = World(files: Files, cache: Deque<V, Stamp>, calls: map<CallId, Call<V>>)

  datatype Action =
    | Write(path: string, content: seq<byte>, mtime: nat)
    | Delete(path: string)
    | Start(id: CallId, path: string)
    | Advance(id: CallId)  // the call makes its next step
    | Fail(id: CallId)     // the call's next step is answered with an error

  function StampOf(content: seq<byte>, mtime: nat): (stamp: Stamp)
  {
    Stamp(mtime, |content|)
  }

  /** Metadata tells two states of a file apart by modification time and length only. */
  lemma StampsExactly(content: seq<byte>, mtime: nat, other: seq<byte>, mtime': nat)
    ensures StampOf(content, mtime) == StampOf(other, mtime') <==> mtime == mtime' && |content| == |other|
  {
  }

  predicate IsChange(action: Action)
  {
    action.Write? || action.Delete?
  }

  function Change(files: Files, action: Action): (files': Files)
    requires IsChange(action)
  {
    match action
    case Write(path, content, mtime) => files[path := File(content, StampOf(content, mtime))]
    case Delete(path) => files - {path}
  }

  function AdvanceCall<V>(w: World<V>, id: CallId, size: nat, convert: Convert<V>): (w': World<V>)
  {
    if id !in w.calls then w else
    match w.calls[id]
    case Looked(path, cached) =>
      w.(calls := w.calls[id :=
        if path !in w.files then Returned(path, Err(NotFound))
        else if cached.Some? && cached.value.stamp == w.files[path].stamp then Returned(path, Ok(cached.value.value))
        else Missed(path)])
    case Missed(path) =>
      w.(calls := w.calls[id :=
        if path !in w.files then Returned(path, Err(StorageError)) else Statted(path, w.files[path].stamp)])
    case Statted(path, stamp) =>
      w.(calls := w.calls[id :=
        if path !in w.files then Returned(path, Err(StorageError))
        else match convert(w.files[path].content)
          case None => Returned(path, Err(ConvertError))
          case Some((value, byteLen)) => Converted(path, Entry(path, value, byteLen, stamp))])
    case Converted(path, entry) =>
      w.(cache := Put(w.cache, entry, size), calls := w.calls[id := Returned(path, Ok(entry.value))])
    case Returned(_, _) => w
  }

  function Step<V>(w: World<V>, action: Action, size: nat, convert: Convert<V>): (w': World<V>)
  {
    match action
    case Write(_, _, _) => w.(files := Change(w.files, action))
    case Delete(_) => w.(files := Change(w.files, action))
    case Start(id, path) =>
      if id in w.calls then w
      else w.(cache := Touch(w.cache, path), calls := w.calls[id := Looked(path, Find(w.cache, path))])
    case Advance(id) => AdvanceCall(w, id, size, convert)
    case Fail(id) =>
      if id in w.calls && (w.calls[id].Looked? || w.calls[id].Missed? || w.calls[id].Statted?)
      then w.(calls := w.calls[id := Returned(w.calls[id].path, Err(StorageError))]) else w
  }

  function Run<V>(actions: seq<Action>, size: nat, convert: Convert<V>): (w: World<V>)
  {
    if actions == [] then World(map[], [], map[]) else
    var last := |actions| - 1;
    Step(Run(actions[..last], size, convert), actions[last], size, convert)
  }

  lemma {:induction false} RunNext<V>(actions: seq<Action>, action: Action, size: nat, convert: Convert<V>)
    ensures Run(actions + [action], size, convert) == Step(Run(actions, size, convert), action, size, convert)
  {
    assert (actions + [action])[..|actions|] == actions;
  }

  // ---- a call nobody disturbs ----

  function MetadataOf<V>(w: World<V>, path: string): (metadata: Metadata)
  {
    if path in w.files then Known(w.files[path].stamp) else Missing
  }

  function FetchedFrom<V>(w: World<V>, path: string): (fetched: Fetched)
  {
    if path in w.files then Fetched(w.files[path].content, w.files[path].stamp) else FetchFailed
  }

  function AdvanceTimes<V>(w: World<V>, id: CallId, n: nat, size: nat, convert: Convert<V>): (w': World<V>)
    decreases n
  {
    if n == 0 then w else AdvanceTimes(AdvanceCall(w, id, size, convert), id, n - 1, size, convert)
  }

  lemma {:induction false} ReturnedCallStays<V>(w: World<V>, id: CallId, n: nat, size: nat, convert: Convert<V>)
    requires id in w.calls && w.calls[id].Returned?
    ensures AdvanceTimes(w, id, n, size, convert) == w
    decreases n
  {
    if n > 0 { ReturnedCallStays(w, id, n - 1, size, convert); }
  }

  /** A call past its two metadata reads. */
  lemma {:induction false} StattedCallStores<V>(w: World<V>, id: CallId, path: string,
                                                stamp: Stamp, size: nat, convert: Convert<V>)
    requires id in w.calls && w.calls[id] == Statted(path, stamp) && path in w.files
    ensures AdvanceTimes(w, id, 2, size, convert) ==
            match convert(w.files[path].content)
            case None => w.(calls := w.calls[id := Returned(path, Err(ConvertError))])
            case Some((value, byteLen)) =>
              w.(cache := Put(w.cache, Entry(path, value, byteLen, stamp), size),
                 calls := w.calls[id := Returned(path, Ok(value))])
  {
    var w1 := AdvanceCall(w, id, size, convert);
    var w2 := AdvanceCall(w1, id, size, convert);
    ReturnedCallStays(w2, id, 0, size, convert);
    assert AdvanceTimes(w1, id, 1, size, convert) == w2;
  }

  /** A call whose entry is not served. */
  lemma {:induction false} LookedCallFetches<V>(w: World<V>, id: CallId, path: string, size: nat, convert: Convert<V>)
    requires id in w.calls && w.calls[id].Looked? && w.calls[id].path == path && path in w.files
    requires var cached := w.calls[id].cached; cached.None? || cached.value.stamp != w.files[path].stamp
    ensures AdvanceTimes(w, id, 4, size, convert) ==
            AdvanceTimes(w.(calls := w.calls[id := Statted(path, w.files[path].stamp)]), id, 2, size, convert)
  {
    var w1 := AdvanceCall(w, id, size, convert);
    assert w1 == w.(calls := w.calls[id := Missed(path)]);
    var w2 := AdvanceCall(w1, id, size, convert);
    assert w2 == w.(calls := w.calls[id := Statted(path, w.files[path].stamp)]);
    assert AdvanceTimes(w1, id, 3, size, convert) == AdvanceTimes(w2, id, 2, size, convert);
  }

  lemma {:induction false} LookedCallReturns<V>(w: World<V>, id: CallId, path: string, size: nat, convert: Convert<V>)
    requires id in w.calls && w.calls[id].Looked? && w.calls[id].path == path
    requires var cached := w.calls[id].cached;
             path in w.files ==> cached.Some? && cached.value.stamp == w.files[path].stamp
    ensures AdvanceTimes(w, id, 4, size, convert) ==
            w.(calls := w.calls[id :=
              Returned(path, if path in w.files then Ok(w.calls[id].cached.value.value) else Err(NotFound))])
  {
    ReturnedCallStays(AdvanceCall(w, id, size, convert), id, 3, size, convert);
  }

  lemma {:induction false} ServedCall<V>(w: World<V>, id: CallId, path: string, size: nat, convert: Convert<V>)
    requires id !in w.calls && (path in w.files ==> IsFresh(w.cache, path, w.files[path].stamp))
    ensures var result := if path in w.files then Ok(w.cache[Position(w.cache, path)].value) else Err(NotFound);
            && Get(w.cache, size, path, MetadataOf(w, path), FetchedFrom(w, path), convert) ==
               (result, Touch(w.cache, path))
            && AdvanceTimes(Step(w, Start(id, path), size, convert), id, 4, size, convert) ==
               w.(cache := Touch(w.cache, path), calls := w.calls[id := Returned(path, result)])
  {
    LookedCallReturns(Step(w, Start(id, path), size, convert), id, path, size, convert);
  }

  lemma {:induction false} FetchedCall<V>(w: World<V>, id: CallId, path: string, size: nat, convert: Convert<V>)
    requires id !in w.calls && path in w.files && !IsFresh(w.cache, path, w.files[path].stamp)
    ensures var calls := w.calls[id := Statted(path, w.files[path].stamp)];
            var statted := w.(cache := Touch(w.cache, path), calls := calls);
            AdvanceTimes(Step(w, Start(id, path), size, convert), id, 4, size, convert) ==
            AdvanceTimes(statted, id, 2, size, convert)
  {
    var w0 := Step(w, Start(id, path), size, convert);
    LookedCallFetches(w0, id, path, size, convert);
    assert w0.calls[id := Statted(path, w.files[path].stamp)] == w.calls[id := Statted(path, w.files[path].stamp)];
  }

  lemma {:induction false} FetchedCallIsAtomic<V>(w: World<V>, id: CallId, path: string, size: nat, convert: Convert<V>)
    requires id !in w.calls && path in w.files && !IsFresh(w.cache, path, w.files[path].stamp)
    ensures var calls := w.calls[id := Statted(path, w.files[path].stamp)];
            var statted := w.(cache := Touch(w.cache, path), calls := calls);
            var (result, cache) := Get(w.cache, size, path, MetadataOf(w, path), FetchedFrom(w, path), convert);
            AdvanceTimes(statted, id, 2, size, convert) ==
            w.(cache := cache, calls := w.calls[id := Returned(path, result)])
  {
    var stamp := w.files[path].stamp;
    var statted := w.(cache := Touch(w.cache, path), calls := w.calls[id := Statted(path, stamp)]);
    StattedCallStores(statted, id, path, stamp, size, convert);
    var result := Get(w.cache, size, path, MetadataOf(w, path), FetchedFrom(w, path), convert).0;
    assert statted.calls[id := Returned(path, result)] == w.calls[id := Returned(path, result)];
  }

  /** Started and advanced without interruption, a call answers and leaves the cache as one atomic get does. */
  lemma {:induction false} UndisturbedCallIsAtomic<V>(w: World<V>, id: CallId, path: string,
                                                      size: nat, convert: Convert<V>)
    requires id !in w.calls
    ensures var (result, cache) := Get(w.cache, size, path, MetadataOf(w, path), FetchedFrom(w, path), convert);
            AdvanceTimes(Step(w, Start(id, path), size, convert), id, 4, size, convert) ==
            w.(cache := cache, calls := w.calls[id := Returned(path, result)])
  {
    if path in w.files && !IsFresh(w.cache, path, w.files[path].stamp) {
      FetchedCall(w, id, path, size, convert);
      FetchedCallIsAtomic(w, id, path, size, convert);
    } else {
      ServedCall(w, id, path, size, convert);
    }
  }

  // ---- the files behind a run ----

  ghost predicate AreChanges(history: seq<Action>)
  {
    forall i :: 0 <= i < |history| ==> IsChange(history[i])
  }

  /** The writes and deletions among the actions. */
  function Changes(actions: seq<Action>): (history: seq<Action>)
    ensures AreChanges(history)
  {
    if actions == [] then [] else
    var last := |actions| - 1;
    Changes(actions[..last]) + if IsChange(actions[last]) then [actions[last]] else []
  }

  lemma {:induction false} ChangesNext(actions: seq<Action>, action: Action)
    ensures Changes(actions + [action]) == if IsChange(action) then Changes(actions) + [action] else Changes(actions)
  {
    assert (actions + [action])[..|actions|] == actions;
  }

  /** The files after the first `n` changes of a history. */
  function FilesAt(history: seq<Action>, n: nat): (files: Files)
    requires AreChanges(history) && n <= |history|
  {
    if n == 0 then map[] else Change(FilesAt(history, n - 1), history[n - 1])
  }

  lemma {:induction false} FilesAtPrefix(history: seq<Action>, more: seq<Action>, n: nat)
    requires AreChanges(history) && AreChanges(more) && history <= more && n <= |history|
    ensures FilesAt(history, n) == FilesAt(more, n)
    decreases n
  {
    if n > 0 {
      FilesAtPrefix(history, more, n - 1);
    }
  }

  // ---- where values come from ----

  ghost predicate HadStamp(history: seq<Action>, i: nat, path: string, stamp: Stamp)
    requires AreChanges(history) && i <= |history|
  {
    var files := FilesAt(history, i);
    path in files && files[path].stamp == stamp
  }

  ghost predicate Gave<V>(history: seq<Action>, j: nat, path: string, value: V, byteLen: nat, convert: Convert<V>)
    requires AreChanges(history) && j <= |history|
  {
    var files := FilesAt(history, j);
    path in files && convert(files[path].content) == Some((value, byteLen))
  }

  /** The stamp was the file's at some point, and the value converts what the file held then or later. */
  ghost predicate Sourced<V>(history: seq<Action>, e: Entry<V, Stamp>, convert: Convert<V>)
    requires AreChanges(history)
  {
    exists i: nat, j: nat :: i <= j <= |history| && HadStamp(history, i, e.key, e.stamp)
                             && Gave(history, j, e.key, e.value, e.byteLen, convert)
  }

  ghost predicate WasStamp(history: seq<Action>, path: string, stamp: Stamp)
    requires AreChanges(history)
  {
    exists i: nat :: i <= |history| && HadStamp(history, i, path, stamp)
  }

  lemma StillSourced<V>(history: seq<Action>, more: seq<Action>, e: Entry<V, Stamp>, convert: Convert<V>)
    requires AreChanges(history) && AreChanges(more) && history <= more && Sourced(history, e, convert)
    ensures Sourced(more, e, convert)
  {
    var i: nat, j: nat :| i <= j <= |history| && HadStamp(history, i, e.key, e.stamp)
                          && Gave(history, j, e.key, e.value, e.byteLen, convert);
    FilesAtPrefix(history, more, i);
    FilesAtPrefix(history, more, j);
    assert HadStamp(more, i, e.key, e.stamp) && Gave(more, j, e.key, e.value, e.byteLen, convert);
  }

  lemma StillStamp(history: seq<Action>, more: seq<Action>, path: string, stamp: Stamp)
    requires AreChanges(history) && AreChanges(more) && history <= more && WasStamp(history, path, stamp)
    ensures WasStamp(more, path, stamp)
  {
    var i: nat :| i <= |history| && HadStamp(history, i, path, stamp);
    FilesAtPrefix(history, more, i);
    assert HadStamp(more, i, path, stamp);
  }

  ghost predicate CallInv<V>(history: seq<Action>, call: Call<V>, size: nat, convert: Convert<V>)
    requires AreChanges(history)
  {
    match call
    case Looked(path, cached) =>
      cached.Some? ==>
        cached.value.key == path && cached.value.byteLen <= size && Sourced(history, cached.value, convert)
    case Statted(path, stamp) => WasStamp(history, path, stamp)
    case Converted(path, entry) => entry.key == path && Sourced(history, entry, convert)
    case _ => true
  }

  ghost predicate Inv<V>(history: seq<Action>, w: World<V>, size: nat, convert: Convert<V>)
  {
    && AreChanges(history) && w.files == FilesAt(history, |history|)
    && (forall e :: e in w.cache ==> e.byteLen <= size && Sourced(history, e, convert))
    && (forall id :: id in w.calls ==> CallInv(history, w.calls[id], size, convert))
  }

  lemma ChangeKeepsInv<V>(history: seq<Action>, w: World<V>, action: Action, size: nat, convert: Convert<V>)
    requires Inv(history, w, size, convert) && IsChange(action)
    ensures Inv(history + [action], Step(w, action, size, convert), size, convert)
  {
    var more := history + [action];
    FilesAtPrefix(history, more, |history|);
    forall e | e in w.cache
      ensures Sourced(more, e, convert)
    {
      StillSourced(history, more, e, convert);
    }
    forall id | id in w.calls
      ensures CallInv(more, w.calls[id], size, convert)
    {
      CallSurvives(history, more, w.calls[id], size, convert);
    }
  }

  lemma CallSurvives<V>(history: seq<Action>, more: seq<Action>, call: Call<V>, size: nat, convert: Convert<V>)
    requires AreChanges(history) && AreChanges(more) && history <= more && CallInv(history, call, size, convert)
    ensures CallInv(more, call, size, convert)
  {
    match call {
      case Looked(path, cached) =>
        if cached.Some? { StillSourced(history, more, cached.value, convert); }
      case Statted(path, stamp) => StillStamp(history, more, path, stamp);
      case Converted(path, entry) => StillSourced(history, more, entry, convert);
      case _ =>
    }
  }

  lemma StartKeepsInv<V>(history: seq<Action>, w: World<V>, id: CallId, path: string, size: nat, convert: Convert<V>)
    requires Inv(history, w, size, convert)
    ensures Inv(history, Step(w, Start(id, path), size, convert), size, convert)
  {
    EntriesOfTouch(w.cache, path);
    var found := Find(w.cache, path);
    assert found.Some? ==> found.value in w.cache;
  }

  /** What a call makes of the file as it is now. */
  lemma NextCallInv<V>(history: seq<Action>, w: World<V>, id: CallId, size: nat, convert: Convert<V>)
    requires Inv(history, w, size, convert) && id in w.calls
    ensures CallInv(history, AdvanceCall(w, id, size, convert).calls[id], size, convert)
  {
    var call, now := w.calls[id], |history|;
    assert CallInv(history, call, size, convert);
    if call.Missed? && call.path in w.files {
      assert HadStamp(history, now, call.path, w.files[call.path].stamp);
    } else if call.Statted? && call.path in w.files && convert(w.files[call.path].content).Some? {
      var (value, byteLen) := convert(w.files[call.path].content).value;
      var i: nat :| i <= now && HadStamp(history, i, call.path, call.stamp);
      assert Gave(history, now, call.path, value, byteLen, convert);
      assert Sourced(history, Entry(call.path, value, byteLen, call.stamp), convert);
    }
  }

  lemma {:induction false} MemberFits<V>(d: Deque<V, Stamp>, e: Entry<V, Stamp>)
    requires e in d
    ensures e.byteLen <= LruStore.Bytes(d)
  {
    if d[0] != e {
      MemberFits(d[1..], e);
    }
  }

  lemma AdvanceKeepsInv<V>(history: seq<Action>, w: World<V>, id: CallId, size: nat, convert: Convert<V>)
    requires Inv(history, w, size, convert)
    ensures Inv(history, AdvanceCall(w, id, size, convert), size, convert)
  {
    if id in w.calls {
      NextCallInv(history, w, id, size, convert);
      if w.calls[id].Converted? {
        assert CallInv(history, w.calls[id], size, convert);
        StoredFit(w.cache, w.calls[id].entry, size);
      }
    }
  }

  lemma StoredFit<V>(d: Deque<V, Stamp>, entry: Entry<V, Stamp>, size: nat)
    ensures forall e :: e in Put(d, entry, size) ==> e.byteLen <= size && (e == entry || e in d)
  {
    EntriesOfPut(d, entry, size);
    KeepIsLongestFittingPrefix([entry] + Without(d, entry.key), size);
    forall e | e in Put(d, entry, size)
      ensures e.byteLen <= size
    {
      MemberFits(Put(d, entry, size), e);
    }
  }

  lemma StepKeepsInv<V>(history: seq<Action>, w: World<V>, action: Action, size: nat, convert: Convert<V>)
    requires Inv(history, w, size, convert)
    ensures Inv(if IsChange(action) then history + [action] else history, Step(w, action, size, convert), size, convert)
  {
    match action {
      case Write(_, _, _) => ChangeKeepsInv(history, w, action, size, convert);
      case Delete(_) => ChangeKeepsInv(history, w, action, size, convert);
      case Start(id, path) => StartKeepsInv(history, w, id, path, size, convert);
      case Advance(id) => AdvanceKeepsInv(history, w, id, size, convert);
      case Fail(id) =>
    }
  }

  /**
   In every interleaving whatsoever, each cached or held entry carries a stamp its file had at some point, and
   converts what the file held at that point or later; and each cached one fits the cache.
   */
  lemma {:induction false} RunKeepsInv<V>(actions: seq<Action>, size: nat, convert: Convert<V>)
    ensures Inv(Changes(actions), Run(actions, size, convert), size, convert)
  {
    if actions != [] {
      var front, action := actions[..|actions| - 1], actions[|actions| - 1];
      RunKeepsInv(front, size, convert);
      StepKeepsInv(Changes(front), Run(front, size, convert), action, size, convert);
      assert actions == front + [action];
      ChangesNext(front, action);
    }
  }

  // ---- freshness ----

  predicate IsActive<V>(w: World<V>, id: CallId, path: string)
  {
    id in w.calls && w.calls[id].path == path && !w.calls[id].Returned?
  }

  /** The value converts the content the file has now. */
  ghost predicate IsCurrent<V>(w: World<V>, path: string, value: V, convert: Convert<V>)
  {
    path in w.files && exists byteLen :: convert(w.files[path].content) == Some((value, byteLen))
  }

  /** At some instant of this very call, the value converted what the file then held. */
  ghost predicate WasCurrentDuring<V>(actions: seq<Action>, id: CallId, path: string,
                                      value: V, size: nat, convert: Convert<V>)
  {
    exists k :: 0 <= k <= |actions| && FreshAt(actions, k, id, path, value, size, convert)
  }

  ghost predicate FreshAt<V>(actions: seq<Action>, k: int, id: CallId, path: string,
                             value: V, size: nat, convert: Convert<V>)
    requires 0 <= k <= |actions|
  {
    var w := Run(actions[..k], size, convert);
    IsActive(w, id, path) && IsCurrent(w, path, value, convert)
  }

  /** What the call holds that it will return, or has returned, was current during it. */
  ghost predicate HoldsFresh<V>(actions: seq<Action>, id: CallId, call: Call<V>, size: nat, convert: Convert<V>)
  {
    && (call.Converted? ==> WasCurrentDuring(actions, id, call.path, call.entry.value, size, convert))
    && (call.Returned? && call.result.Ok? ==>
          WasCurrentDuring(actions, id, call.path, call.result.value, size, convert))
  }

  ghost predicate CallsFresh<V>(actions: seq<Action>, size: nat, convert: Convert<V>)
  {
    var calls := Run(actions, size, convert).calls;
    forall id :: id in calls ==> HoldsFresh(actions, id, calls[id], size, convert)
  }

  lemma StillWasCurrent<V>(actions: seq<Action>, action: Action, id: CallId,
                           path: string, value: V, size: nat, convert: Convert<V>)
    requires WasCurrentDuring(actions, id, path, value, size, convert)
    ensures WasCurrentDuring(actions + [action], id, path, value, size, convert)
  {
    var k :| 0 <= k <= |actions| && FreshAt(actions, k, id, path, value, size, convert);
    assert (actions + [action])[..k] == actions[..k];
    assert FreshAt(actions + [action], k, id, path, value, size, convert);
  }

  lemma {:induction false} NowCurrent<V>(actions: seq<Action>, action: Action, id: CallId,
                                         path: string, value: V, size: nat, convert: Convert<V>)
    requires var w := Run(actions, size, convert); IsActive(w, id, path) && IsCurrent(w, path, value, convert)
    ensures WasCurrentDuring(actions + [action], id, path, value, size, convert)
  {
    assert (actions + [action])[..|actions|] == actions;
    assert FreshAt(actions + [action], |actions|, id, path, value, size, convert);
  }

  // ---- honest histories ----

  /**
   Whenever a file's stamp returns, a conversion of what it held in between, if it fits the cache, is still a
   conversion of what it holds.
   */
  ghost predicate HonestAt<V>(history: seq<Action>, i: nat, j: nat, k: nat,
                              path: string, size: nat, convert: Convert<V>)
    requires AreChanges(history) && i <= j <= k <= |history|
  {
    var before, between, after := FilesAt(history, i), FilesAt(history, j), FilesAt(history, k);
    path in before && path in between && path in after && before[path].stamp == after[path].stamp ==>
      var given, now := convert(between[path].content), convert(after[path].content);
      given.Some? && given.value.1 <= size ==> now.Some? && now.value.0 == given.value.0
  }

  ghost predicate Honest<V>(history: seq<Action>, size: nat, convert: Convert<V>)
    requires AreChanges(history)
  {
    forall i: nat, j: nat, k: nat, path ::
      i <= j <= k <= |history| ==> HonestAt(history, i, j, k, path, size, convert)
  }

  lemma HonestPrefix<V>(history: seq<Action>, more: seq<Action>, size: nat, convert: Convert<V>)
    requires AreChanges(history) && AreChanges(more) && history <= more && Honest(more, size, convert)
    ensures Honest(history, size, convert)
  {
    forall i: nat, j: nat, k: nat, path: string | i <= j <= k <= |history|
      ensures HonestAt(history, i, j, k, path, size, convert)
    {
      FilesAtPrefix(history, more, i);
      FilesAtPrefix(history, more, j);
      FilesAtPrefix(history, more, k);
      assert HonestAt(more, i, j, k, path, size, convert);
    }
  }

  lemma {:induction false} SourcedIsCurrent<V>(history: seq<Action>, w: World<V>, e: Entry<V, Stamp>,
                                               size: nat, convert: Convert<V>)
    requires AreChanges(history) && Honest(history, size, convert) && w.files == FilesAt(history, |history|)
    requires Sourced(history, e, convert) && e.byteLen <= size
    requires e.key in w.files && w.files[e.key].stamp == e.stamp
    ensures IsCurrent(w, e.key, e.value, convert)
  {
    var i: nat, j: nat :| i <= j <= |history| && HadStamp(history, i, e.key, e.stamp)
                          && Gave(history, j, e.key, e.value, e.byteLen, convert);
    assert HonestAt(history, i, j, |history|, e.key, size, convert);
    var (value, byteLen) := convert(w.files[e.key].content).value;
    assert convert(w.files[e.key].content) == Some((e.value, byteLen));
  }

  /** A value that a call comes to hold in this step is current now; one it held before was so earlier. */
  lemma NewValueIsCurrent<V>(history: seq<Action>, w: World<V>, action: Action,
                             id: CallId, size: nat, convert: Convert<V>)
    requires Inv(history, w, size, convert) && Honest(history, size, convert) && id in w.calls
    ensures var call, call' := w.calls[id], Step(w, action, size, convert).calls[id];
            && call'.path == call.path
            && (call'.Converted? ==>
                  call' == call || (IsActive(w, id, call.path) && IsCurrent(w, call.path, call'.entry.value, convert)))
            && (call'.Returned? && call'.result.Ok? ==>
                  || call' == call
                  || (call.Converted? && call'.result.value == call.entry.value)
                  || (IsActive(w, id, call.path) && IsCurrent(w, call.path, call'.result.value, convert)))
  {
    var call := w.calls[id];
    assert CallInv(history, call, size, convert);
    if call.Looked? && call.cached.Some? && call.path in w.files
       && call.cached.value.stamp == w.files[call.path].stamp {
      SourcedIsCurrent(history, w, call.cached.value, size, convert);
    }
  }

  lemma {:induction false} StepKeepsFresh<V>(actions: seq<Action>, action: Action,
                                             id: CallId, size: nat, convert: Convert<V>)
    requires Honest(Changes(actions), size, convert) && CallsFresh(actions, size, convert)
    requires id in Run(actions + [action], size, convert).calls
    ensures HoldsFresh(actions + [action], id, Run(actions + [action], size, convert).calls[id], size, convert)
  {
    var w := Run(actions, size, convert);
    RunNext(actions, action, size, convert);
    var call' := Step(w, action, size, convert).calls[id];
    if id in w.calls {
      var call := w.calls[id];
      assert HoldsFresh(actions, id, call, size, convert);
      RunKeepsInv(actions, size, convert);
      NewValueIsCurrent(Changes(actions), w, action, id, size, convert);
      if call'.Converted? {
        if call' == call {
          StillWasCurrent(actions, action, id, call.path, call'.entry.value, size, convert);
        } else {
          NowCurrent(actions, action, id, call.path, call'.entry.value, size, convert);
        }
      } else if call'.Returned? && call'.result.Ok? {
        if call' == call || call.Converted? {
          StillWasCurrent(actions, action, id, call.path, call'.result.value, size, convert);
        } else {
          NowCurrent(actions, action, id, call.path, call'.result.value, size, convert);
        }
      }
    }
  }

  lemma {:induction false} RunIsFresh<V>(actions: seq<Action>, size: nat, convert: Convert<V>)
    requires Honest(Changes(actions), size, convert)
    ensures CallsFresh(actions, size, convert)
  {
    if actions != [] {
      var last := |actions| - 1;
      var front := actions[..last];
      HonestPrefix(Changes(front), Changes(actions), size, convert);
      RunIsFresh(front, size, convert);
      assert front + [actions[last]] == actions;
      forall id | id in Run(actions, size, convert).calls
        ensures HoldsFresh(actions, id, Run(actions, size, convert).calls[id], size, convert)
      {
        StepKeepsFresh(front, actions[last], id, size, convert);
      }
    }
  }

  /** If this call has succeeded, it returned the conversion of what its file held at some instant of that call. */
  ghost predicate GetIsFresh<V>(actions: seq<Action>, id: CallId, size: nat, convert: Convert<V>)
  {
    var w := Run(actions, size, convert);
    id in w.calls && w.calls[id].Returned? && w.calls[id].result.Ok? ==>
      WasCurrentDuring(actions, id, w.calls[id].path, w.calls[id].result.value, size, convert)
  }

  /** In every interleaving of gets with an honest history of the files, every get is fresh. */
  lemma {:induction false} EveryGetIsFresh<V>(actions: seq<Action>, id: CallId, size: nat, convert: Convert<V>)
    requires Honest(Changes(actions), size, convert)
    ensures GetIsFresh(actions, id, size, convert)
  {
    RunIsFresh(actions, size, convert);
  }
}
