/** Which histories of the files make every get fresh, in every interleaving. */
module FsHistories {
  import opened Options
  import opened Bytes
  import opened LruStore
  import opened AdaptCache
  import opened FsCache
  import opened FsFreshness

  // ---- runs that stop for a while and let the files change ----

  lemma {:induction false} ChangesPass(actions: seq<Action>, changes: seq<Action>)
    requires AreChanges(changes)
    ensures Changes(actions + changes) == Changes(actions) + changes
    decreases |changes|
  {
    if changes == [] {
      assert actions + changes == actions;
    } else {
      var front, last := changes[..|changes| - 1], changes[|changes| - 1];
      assert changes == front + [last];
      ChangesPass(actions, front);
      assert actions + changes == actions + front + [last];
      ChangesNext(actions + front, last);
    }
  }

  /** Only the files change. */
  lemma {:induction false} FilesPass<V>(actions: seq<Action>, changes: seq<Action>, size: nat, convert: Convert<V>)
    requires AreChanges(changes)
    ensures var w, w' := Run(actions, size, convert), Run(actions + changes, size, convert);
            w'.cache == w.cache && w'.calls == w.calls
    decreases |changes|
  {
    if changes == [] {
      assert actions + changes == actions;
    } else {
      var front, last := changes[..|changes| - 1], changes[|changes| - 1];
      FilesPass(actions, front, size, convert);
      assert actions + changes == actions + front + [last];
      RunNext(actions + front, last, size, convert);
    }
  }

  lemma {:induction false} FilesOfRun<V>(actions: seq<Action>, size: nat, convert: Convert<V>)
    ensures Run(actions, size, convert).files == FilesAt(Changes(actions), |Changes(actions)|)
  {
    RunKeepsInv(actions, size, convert);
  }

  /** The state of a run by its history, its cache and its calls. */
  ghost predicate Reaches<V>(actions: seq<Action>, history: seq<Action>, n: nat, cache: Deque<V, Stamp>,
                             calls: map<CallId, Call<V>>, size: nat, convert: Convert<V>)
    requires AreChanges(history) && n <= |history|
  {
    Changes(actions) == history[..n] && Run(actions, size, convert) == World(FilesAt(history, n), cache, calls)
  }

  lemma ReachesLater<V>(actions: seq<Action>, history: seq<Action>, n: nat, m: nat, cache: Deque<V, Stamp>,
                        calls: map<CallId, Call<V>>, size: nat, convert: Convert<V>)
    requires AreChanges(history) && n <= m <= |history| && Reaches(actions, history, n, cache, calls, size, convert)
    ensures Reaches(actions + history[n..m], history, m, cache, calls, size, convert)
  {
    ChangesPass(actions, history[n..m]);
    FilesPass(actions, history[n..m], size, convert);
    assert history[..n] + history[n..m] == history[..m];
    FilesOfRun(actions + history[n..m], size, convert);
    FilesAtPrefix(history[..m], history, m);
  }

  /** A step of a call: neither the history nor the files change. */
  lemma {:induction false} ReachesNext<V>(actions: seq<Action>, action: Action, history: seq<Action>,
                                          n: nat, w: World<V>, size: nat, convert: Convert<V>)
    requires AreChanges(history) && n <= |history| && !IsChange(action)
    requires Reaches(actions, history, n, w.cache, w.calls, size, convert) && w.files == FilesAt(history, n)
    ensures var w' := Step(w, action, size, convert);
            Reaches(actions + [action], history, n, w'.cache, w'.calls, size, convert)
  {
    ChangesNext(actions, action);
    RunNext(actions, action, size, convert);
  }

  // ---- a dishonest history misleads some get ----

  lemma PutIntoEmpty<V>(e: Entry<V, Stamp>, size: nat)
    requires e.byteLen <= size
    ensures Put([], e, size) == [e]
  {
    var empty: Deque<V, Stamp> := [];
    assert [e] + Without(empty, e.key) == [e];
    assert [e][1..] == empty;
    assert Keep([e], size) == [e] + Keep(empty, size - e.byteLen);
    assert Keep(empty, size - e.byteLen) == empty;
  }

  /** The first call has read its stamp at `i`. */
  lemma StampRead<V>(history: seq<Action>, i: nat, path: string, size: nat, convert: Convert<V>)
    returns (actions: seq<Action>)
    requires AreChanges(history) && i <= |history| && path in FilesAt(history, i)
    ensures Reaches(actions, history, i, [], map[0 := Statted(path, FilesAt(history, i)[path].stamp)], size, convert)
  {
    var files := FilesAt(history, i);
    var none: map<CallId, Call<V>> := map[];
    var looked: Call<V> := Looked(path, None);
    var missed: Call<V> := Missed(path);
    assert Reaches([], history, 0, [], none, size, convert);
    ReachesLater([], history, 0, i, [], none, size, convert);
    actions := [] + history[0..i];
    ReachesNext(actions, Start(0, path), history, i, World(files, [], none), size, convert);
    actions := actions + [Start(0, path)];
    assert none[0 := looked] == map[0 := looked];
    ReachesNext(actions, Advance(0), history, i, World(files, [], map[0 := looked]), size, convert);
    actions := actions + [Advance(0)];
    assert map[0 := looked][0 := missed] == map[0 := missed];
    ReachesNext(actions, Advance(0), history, i, World(files, [], map[0 := missed]), size, convert);
    actions := actions + [Advance(0)];
    assert map[0 := missed][0 := Statted(path, files[path].stamp)] == map[0 := Statted(path, files[path].stamp)];
  }

  /** Then the content at `j`, and stored the two together. */
  lemma ValueStored<V>(history: seq<Action>, i: nat, j: nat, path: string,
                       e: Entry<V, Stamp>, size: nat, convert: Convert<V>)
    returns (actions: seq<Action>)
    requires AreChanges(history) && i <= j <= |history| && path in FilesAt(history, i) && path in FilesAt(history, j)
    requires e.key == path && e.stamp == FilesAt(history, i)[path].stamp && e.byteLen <= size
    requires convert(FilesAt(history, j)[path].content) == Some((e.value, e.byteLen))
    ensures Reaches(actions, history, j, [e], map[0 := Returned(path, Ok(e.value))], size, convert)
  {
    var files := FilesAt(history, j);
    var statted: Call<V> := Statted(path, e.stamp);
    var converted: Call<V> := Converted(path, e);
    actions := StampRead(history, i, path, size, convert);
    ReachesLater(actions, history, i, j, [], map[0 := statted], size, convert);
    actions := actions + history[i..j];
    ReachesNext(actions, Advance(0), history, j, World(files, [], map[0 := statted]), size, convert);
    actions := actions + [Advance(0)];
    assert map[0 := statted][0 := converted] == map[0 := converted];
    ReachesNext(actions, Advance(0), history, j, World(files, [], map[0 := converted]), size, convert);
    actions := actions + [Advance(0)];
    PutIntoEmpty(e, size);
    assert map[0 := converted][0 := Returned(path, Ok(e.value))] == map[0 := Returned(path, Ok(e.value))];
  }

  /** A second call comes at `k`, when the stamp is back. */
  lemma StoredServed<V>(history: seq<Action>, i: nat, j: nat, k: nat,
                        e: Entry<V, Stamp>, size: nat, convert: Convert<V>)
    returns (before: seq<Action>)
    requires AreChanges(history) && i <= j <= k <= |history|
    requires e.key in FilesAt(history, i) && e.key in FilesAt(history, j) && e.key in FilesAt(history, k)
    requires e.stamp == FilesAt(history, i)[e.key].stamp == FilesAt(history, k)[e.key].stamp && e.byteLen <= size
    requires convert(FilesAt(history, j)[e.key].content) == Some((e.value, e.byteLen))
    ensures Changes(before) == history[..k] && 1 !in Run(before, size, convert).calls
    ensures var started := before + [Start(1, e.key)];
            && Run(started, size, convert).files == FilesAt(history, k)
            && Changes(started + [Advance(1)]) == history[..k]
            && var calls := Run(started + [Advance(1)], size, convert).calls;
               1 in calls && calls[1] == Returned(e.key, Ok(e.value))
  {
    var files, first := FilesAt(history, k), map[0 := Returned(e.key, Ok(e.value))];
    var stored := ValueStored(history, i, j, e.key, e, size, convert);
    ReachesLater(stored, history, j, k, [e], first, size, convert);
    before := stored + history[j..k];
    ReachesNext(before, Start(1, e.key), history, k, World(files, [e], first), size, convert);
    var looked: Call<V> := Looked(e.key, Some(e));
    assert Find([e], e.key) == Some(e);
    var w := World(files, Touch([e], e.key), first[1 := looked]);
    ReachesNext(before + [Start(1, e.key)], Advance(1), history, k, w, size, convert);
  }

  lemma {:induction false} CallsStay<V>(actions: seq<Action>, k: nat, n: nat,
                                        id: CallId, size: nat, convert: Convert<V>)
    requires k <= n <= |actions| && id !in Run(actions[..n], size, convert).calls
    ensures id !in Run(actions[..k], size, convert).calls
    decreases n
  {
    if k < n {
      assert actions[..n][..n - 1] == actions[..n - 1];
      CallsStay(actions, k, n - 1, id, size, convert);
    }
  }

  lemma {:induction false} NeverCurrent<V>(before: seq<Action>, path: string, value: V, size: nat, convert: Convert<V>)
    requires 1 !in Run(before, size, convert).calls
    requires !IsCurrent(Run(before + [Start(1, path)], size, convert), path, value, convert)
    requires var calls := Run(before + [Start(1, path)] + [Advance(1)], size, convert).calls;
             1 in calls && calls[1].Returned?
    ensures !WasCurrentDuring(before + [Start(1, path)] + [Advance(1)], 1, path, value, size, convert)
  {
    var started := before + [Start(1, path)];
    var actions := started + [Advance(1)];
    assert actions[..|before|] == before && actions[..|started|] == started && actions[..|actions|] == actions;
    forall k | 0 <= k <= |actions|
      ensures !FreshAt(actions, k, 1, path, value, size, convert)
    {
      if k <= |before| {
        CallsStay(actions, k, |before|, 1, size, convert);
      }
    }
  }

  /** For every dishonest point there is an interleaving with the history up to it in which a get is not fresh. */
  lemma DishonestIsStale<V>(history: seq<Action>, i: nat, j: nat, k: nat, path: string, size: nat, convert: Convert<V>)
    returns (actions: seq<Action>)
    requires AreChanges(history) && i <= j <= k <= |history|
    requires !HonestAt(history, i, j, k, path, size, convert)
    ensures Changes(actions) == history[..k] && !GetIsFresh(actions, 1, size, convert)
  {
    var (value, byteLen) := convert(FilesAt(history, j)[path].content).value;
    var e := Entry(path, value, byteLen, FilesAt(history, i)[path].stamp);
    var before := StoredServed(history, i, j, k, e, size, convert);
    NeverCurrent(before, path, value, size, convert);
    actions := before + [Start(1, path)] + [Advance(1)];
  }

  /** Every get is fresh in every interleaving with this history, or with a beginning of it. */
  ghost predicate AlwaysFresh<V>(history: seq<Action>, size: nat, convert: Convert<V>)
  {
    forall actions: seq<Action>, id: CallId :: Changes(actions) <= history ==> GetIsFresh(actions, id, size, convert)
  }

  /** Every get is fresh in every interleaving with a history of the files if and only if the history is honest. */
  lemma FreshExactly<V>(history: seq<Action>, size: nat, convert: Convert<V>)
    requires AreChanges(history)
    ensures AlwaysFresh(history, size, convert) <==> Honest(history, size, convert)
  {
    if Honest(history, size, convert) {
      forall actions: seq<Action>, id: CallId | Changes(actions) <= history
        ensures GetIsFresh(actions, id, size, convert)
      {
        HonestPrefix(Changes(actions), history, size, convert);
        EveryGetIsFresh(actions, id, size, convert);
      }
    } else {
      var i: nat, j: nat, k: nat, path :| i <= j <= k <= |history| && !HonestAt(history, i, j, k, path, size, convert);
      var actions := DishonestIsStale(history, i, j, k, path, size, convert);
      assert Changes(actions) <= history;
    }
  }

  // ---- writers that never bring back a stamp ----

  ghost predicate NewStamp(history: seq<Action>, n: nat)
    requires AreChanges(history) && n < |history|
  {
    history[n].Write? ==>
      forall i: nat :: i <= n ==> !HadStamp(history, i, history[n].path, StampOf(history[n].content, history[n].mtime))
  }

  ghost predicate Disciplined(history: seq<Action>)
    requires AreChanges(history)
  {
    forall n: nat :: n < |history| ==> NewStamp(history, n)
  }

  lemma {:induction false} StampMeansUnchanged(history: seq<Action>, i: nat, j: nat, k: nat, path: string)
    requires AreChanges(history) && Disciplined(history) && i <= j <= k <= |history|
    requires path in FilesAt(history, i) && HadStamp(history, k, path, FilesAt(history, i)[path].stamp)
    ensures path in FilesAt(history, j) && FilesAt(history, j)[path] == FilesAt(history, k)[path]
    decreases k
  {
    if j < k {
      var stamp := FilesAt(history, i)[path].stamp;
      assert HadStamp(history, i, path, stamp) && NewStamp(history, k - 1);
      StampMeansUnchanged(history, i, j, k - 1, path);
    }
  }

  lemma DisciplinedIsHonest<V>(history: seq<Action>, size: nat, convert: Convert<V>)
    requires AreChanges(history) && Disciplined(history)
    ensures Honest(history, size, convert)
  {
    forall i: nat, j: nat, k: nat, path: string | i <= j <= k <= |history|
      ensures HonestAt(history, i, j, k, path, size, convert)
    {
      if path in FilesAt(history, i) && HadStamp(history, k, path, FilesAt(history, i)[path].stamp) {
        StampMeansUnchanged(history, i, j, k, path);
      }
    }
  }

  /** Each write of a path has a later modification time than every earlier write of it. */
  ghost predicate TimesRise(history: seq<Action>)
  {
    forall m, n ::
      0 <= m < n < |history| && history[m].Write? && history[n].Write? && history[m].path == history[n].path ==>
        history[m].mtime < history[n].mtime
  }

  lemma {:induction false} StampOfWrite(history: seq<Action>, i: nat, path: string)
    returns (m: nat)
    requires AreChanges(history) && i <= |history| && path in FilesAt(history, i)
    ensures m < i && history[m].Write? && history[m].path == path
    ensures FilesAt(history, i)[path].stamp.mtime == history[m].mtime
    decreases i
  {
    if history[i - 1].Write? && history[i - 1].path == path {
      m := i - 1;
    } else {
      m := StampOfWrite(history, i - 1, path);
    }
  }

  /** With strictly rising modification times every get is fresh, in every interleaving. */
  lemma {:induction false} RisingTimesAreFresh<V>(actions: seq<Action>, id: CallId, size: nat, convert: Convert<V>)
    requires TimesRise(Changes(actions))
    ensures GetIsFresh(actions, id, size, convert)
  {
    var history := Changes(actions);
    forall n: nat | n < |history|
      ensures NewStamp(history, n)
    {
      if history[n].Write? {
        forall i: nat | i <= n && history[n].path in FilesAt(history, i)
          ensures FilesAt(history, i)[history[n].path].stamp.mtime < history[n].mtime
        {
          var m := StampOfWrite(history, i, history[n].path);
        }
      }
    }
    DisciplinedIsHonest(history, size, convert);
    EveryGetIsFresh(actions, id, size, convert);
  }

  // ---- two ways to mislead ----

  lemma TwoWrites(path: string, a: Action, b: Action)
    requires a.Write? && b.Write? && a.path == b.path == path
    ensures AreChanges([a, b])
    ensures FilesAt([a, b], 1) == map[path := File(a.content, StampOf(a.content, a.mtime))]
    ensures FilesAt([a, b], 2) == map[path := File(b.content, StampOf(b.content, b.mtime))]
  {
    var none: Files := map[];
    assert FilesAt([a, b], 1) == Change(none, a);
    assert FilesAt([a, b], 2) == Change(FilesAt([a, b], 1), b);
  }

  /** A write keeps both the modification time and the length: the next get may return the old value. */
  lemma ReusedStampIsStale<V>(path: string, content: seq<byte>, later: seq<byte>,
                              mtime: nat, size: nat, convert: Convert<V>)
    returns (actions: seq<Action>)
    requires |later| == |content|
    requires convert(content).Some? && convert(content).value.1 <= size
    requires convert(later).Some? ==> convert(later).value.0 != convert(content).value.0
    ensures Changes(actions) == [Write(path, content, mtime), Write(path, later, mtime)]
    ensures !GetIsFresh(actions, 1, size, convert)
  {
    var history := [Write(path, content, mtime), Write(path, later, mtime)];
    TwoWrites(path, history[0], history[1]);
    actions := DishonestIsStale(history, 1, 1, 2, path, size, convert);
    assert history[..2] == history;
  }

  lemma ThreeWrites(path: string, a: Action, b: Action)
    requires a.Write? && b.Write? && a.path == b.path == path
    ensures AreChanges([a, b, a])
    ensures FilesAt([a, b, a], 1) == FilesAt([a, b, a], 3) == map[path := File(a.content, StampOf(a.content, a.mtime))]
    ensures FilesAt([a, b, a], 2) == map[path := File(b.content, StampOf(b.content, b.mtime))]
  {
    var none: Files := map[];
    assert FilesAt([a, b, a], 1) == Change(none, a);
    assert FilesAt([a, b, a], 2) == Change(FilesAt([a, b, a], 1), b);
    assert FilesAt([a, b, a], 3) == Change(FilesAt([a, b, a], 2), a);
  }

  /** A file is changed and restored together with its stamp: a get may return the value it had in between. */
  lemma RestoredFileIsStale<V>(path: string, content: seq<byte>, mtime: nat, other: seq<byte>,
                               mtime': nat, size: nat, convert: Convert<V>)
    returns (actions: seq<Action>)
    requires convert(other).Some? && convert(other).value.1 <= size
    requires convert(content).Some? ==> convert(content).value.0 != convert(other).value.0
    ensures var a, b := Write(path, content, mtime), Write(path, other, mtime'); Changes(actions) == [a, b, a]
    ensures !GetIsFresh(actions, 1, size, convert)
  {
    var a, b := Write(path, content, mtime), Write(path, other, mtime');
    ThreeWrites(path, a, b);
    actions := DishonestIsStale([a, b, a], 1, 2, 3, path, size, convert);
    assert [a, b, a][..3] == [a, b, a];
  }
}
