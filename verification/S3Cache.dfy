/** The object-store adapter: a conditional request with the cached ETag, and the cached value on "not modified". */
module S3Cache {
  import opened Options
  import opened Bytes
  import opened LruStore
  import opened AdaptCache

  /** An entity tag: an opaque text, and whether it is marked as weak. */
  datatype ETag = ETag(weak: bool, tag: string)

  /** The weak comparison of section 8.8.3.2 of RFC 9110, which section 13.1.2 prescribes for If-None-Match. */
  predicate Matches(etag: ETag, other: ETag)
  {
    etag.tag == other.tag
  }

  datatype Response =
    | Delivered(data: seq<byte>, etag: ETag)
    | NotModified
    | NoSuchKey
    | OtherError

  /** A 304 without a cached entry makes the code unwrap nothing and panic. */
  datatype Outcome<+V> = Answer(result: Result<V>) | Panicked

  function Get<V>(d: Deque<V, ETag>, size: nat, key: string, response: Response, convert: Convert<V>)
    : (r: (Outcome<V>, Deque<V, ETag>))
  {
    var touched := Touch(d, key);
    match response
    case Delivered(data, etag) =>
      (match convert(data)
       case None => (Answer(Err(ConvertError)), touched)
       case Some((value, byteLen)) => (Answer(Ok(value)), Put(touched, Entry(key, value, byteLen, etag), size)))
    case NotModified =>
      (match Find(d, key)
       case None => (Panicked, touched)
       case Some(e) => (Answer(Ok(e.value)), touched))
    case NoSuchKey => (Answer(Err(NotFound)), touched)
    case OtherError => (Answer(Err(StorageError)), touched)
  }

  /** The answers: what was delivered, the cached value on 304, and which error each failure becomes. */
  lemma AnswersExactly<V>(d: Deque<V, ETag>, size: nat, key: string, response: Response, convert: Convert<V>)
    ensures var r := Get(d, size, key, response, convert).0;
            && (r == Panicked <==> response == NotModified && Find(d, key) == None)
            && (r == Answer(Err(NotFound)) <==> response == NoSuchKey)
            && (r == Answer(Err(StorageError)) <==> response == OtherError)
            && (r == Answer(Err(ConvertError)) <==> response.Delivered? && convert(response.data) == None)
            && (response == NotModified && Find(d, key).Some? ==> r == Answer(Ok(Find(d, key).value.value)))
            && (response.Delivered? && convert(response.data).Some? ==>
                  r == Answer(Ok(convert(response.data).value.0)))
  {
  }

  /** What is stored: a delivered object that converts, with its ETag, in front; otherwise only the lookup shows. */
  lemma StoresExactly<V>(d: Deque<V, ETag>, size: nat, key: string, response: Response, convert: Convert<V>)
    ensures var d' := Get(d, size, key, response, convert).1;
            if response.Delivered? && convert(response.data).Some? then
              var (value, byteLen) := convert(response.data).value;
              d' == Put(Touch(d, key), Entry(key, value, byteLen, response.etag), size)
            else d' == Touch(d, key)
  {
  }

  class S3AdaptCache<V> {
    const store: Store<V, ETag>

    constructor (size: nat)
      ensures store.Valid() && store.cache == [] && store.size == size && fresh(store)
    {
      store := new Store(size);
    }

    /** `respond` stands for the request: what the server answers to this If-None-Match header. */
    method GetImpl(key: string, respond: Option<ETag> -> Response, convert: Convert<V>) returns (r: Outcome<V>)
      requires store.Valid()
      modifies store
      ensures store.Valid()
      ensures var cached := Find(old(store.cache), key);
              var response := respond(if cached.Some? then Some(cached.value.stamp) else None);
              (r, store.cache) == Get(old(store.cache), store.size, key, response, convert)
    {
      var cached := store.TryHit(key);
      var ifNoneMatch := if cached.Some? then Some(cached.value.stamp) else None;
      match respond(ifNoneMatch) {
        case Delivered(data, etag) =>
          match convert(data) {
            case None =>
              r := Answer(Err(ConvertError));
            case Some((value, byteLen)) =>
              store.PutToCache(Entry(key, value, byteLen, etag));
              r := Answer(Ok(value));
          }
        case NotModified =>
          if cached.None? {
            return Panicked;
          }
          r := Answer(Ok(cached.value.value));
        case NoSuchKey =>
          r := Answer(Err(NotFound));
        case OtherError =>
          r := Answer(Err(StorageError));
      }
    }
  }

  // ---- many gets, interleaved with each other and with changes of the objects ----

  datatype Object = Object(content: seq<byte>, etag: ETag)

  type CallId = nat

  datatype Call<V> =
    | Asking(key: string, cached: Option<Entry<V, ETag>>)  // the request is about to reach the server
    | Fetched(key: string, entry: Entry<V, ETag>)          // converted, not yet stored
    | Returned(key: string, outcome: Outcome<V>)

  datatype World<V> = World(objects: map<string, Object>, cache: Deque<V, ETag>, calls: map<CallId, Call<V>>)

  datatype Action =
    | PutObject(key: string, content: seq<byte>, etag: ETag)
    | DeleteObject(key: string)
    | Start(id: CallId, key: string)
    | Reply(id: CallId, response: Response)
    | Finish(id: CallId)

  /** What a server may answer, by sections 13.1.2 and 15.4.5 of RFC 9110. Any request may also fail. */
  predicate Conforms(objects: map<string, Object>, key: string, ifNoneMatch: Option<ETag>, response: Response)
  {
    match response
    case Delivered(data, etag) =>
      key in objects && objects[key] == Object(data, etag) && (ifNoneMatch.None? || !Matches(ifNoneMatch.value, etag))
    case NotModified => key in objects && ifNoneMatch.Some? && Matches(ifNoneMatch.value, objects[key].etag)
    case NoSuchKey => key !in objects
    case OtherError => true
  }

  function ETagOf<V>(cached: Option<Entry<V, ETag>>): (etag: Option<ETag>)
  {
    if cached.Some? then Some(cached.value.stamp) else None
  }

  function Answered<V>(call: Call<V>, response: Response, convert: Convert<V>): (call': Call<V>)
    requires call.Asking?
  {
    match response
    case Delivered(data, etag) =>
      (match convert(data)
       case None => Returned(call.key, Answer(Err(ConvertError)))
       case Some((value, byteLen)) => Fetched(call.key, Entry(call.key, value, byteLen, etag)))
    case NotModified =>
      Returned(call.key, if call.cached.None? then Panicked else Answer(Ok(call.cached.value.value)))
    case NoSuchKey => Returned(call.key, Answer(Err(NotFound)))
    case OtherError => Returned(call.key, Answer(Err(StorageError)))
  }

  /** An action that cannot happen in this world, such as a reply no conforming server sends, changes nothing. */
  function Step<V>(w: World<V>, action: Action, size: nat, convert: Convert<V>): (w': World<V>)
  {
    match action
    case PutObject(key, content, etag) => w.(objects := w.objects[key := Object(content, etag)])
    case DeleteObject(key) => w.(objects := w.objects - {key})
    case Start(id, key) =>
      if id in w.calls then w
      else w.(cache := Touch(w.cache, key), calls := w.calls[id := Asking(key, Find(w.cache, key))])
    case Reply(id, response) =>
      if id in w.calls && w.calls[id].Asking?
         && Conforms(w.objects, w.calls[id].key, ETagOf(w.calls[id].cached), response)
      then w.(calls := w.calls[id := Answered(w.calls[id], response, convert)]) else w
    case Finish(id) =>
      if id in w.calls && w.calls[id].Fetched?
      then w.(cache := Put(w.cache, w.calls[id].entry, size),
              calls := w.calls[id := Returned(w.calls[id].key, Answer(Ok(w.calls[id].entry.value)))]) else w
  }

  function Run<V>(actions: seq<Action>, size: nat, convert: Convert<V>): (w: World<V>)
  {
    if actions == [] then World(map[], [], map[]) else
    var last := |actions| - 1;
    Step(Run(actions[..last], size, convert), actions[last], size, convert)
  }

  /** Started, answered and finished without interruption, a call does what one atomic get does. */
  lemma UndisturbedCallIsAtomic<V>(w: World<V>, id: CallId, key: string,
                                   response: Response, size: nat, convert: Convert<V>)
    requires id !in w.calls && Conforms(w.objects, key, ETagOf(Find(w.cache, key)), response)
    ensures var (outcome, cache) := Get(w.cache, size, key, response, convert);
            var asking := Step(w, Start(id, key), size, convert);
            Step(Step(asking, Reply(id, response), size, convert), Finish(id), size, convert) ==
            w.(cache := cache, calls := w.calls[id := Returned(key, outcome)])
  {
    var asking := Step(w, Start(id, key), size, convert);
    var answered := Step(asking, Reply(id, response), size, convert);
    assert answered == asking.(calls := w.calls[id := Answered(asking.calls[id], response, convert)]);
  }

  lemma {:induction false} RunNext<V>(actions: seq<Action>, action: Action, size: nat, convert: Convert<V>)
    ensures Run(actions + [action], size, convert) == Step(Run(actions, size, convert), action, size, convert)
  {
    assert (actions + [action])[..|actions|] == actions;
  }

  /** ETags of a key that match, weak or not, stand for one content, over the whole run. */
  type Identity = (string, string) -> seq<byte>

  ghost predicate Identifies(contentOf: Identity, action: Action)
  {
    action.PutObject? ==> action.content == contentOf(action.key, action.etag.tag)
  }

  // ---- the invariant ----

  ghost predicate Trusted<V>(e: Entry<V, ETag>, contentOf: Identity, convert: Convert<V>)
  {
    convert(contentOf(e.key, e.stamp.tag)) == Some((e.value, e.byteLen))
  }

  ghost predicate CallInv<V>(call: Call<V>, contentOf: Identity, convert: Convert<V>)
  {
    match call
    case Asking(key, cached) => cached.Some? ==> cached.value.key == key && Trusted(cached.value, contentOf, convert)
    case Fetched(key, entry) => entry.key == key && Trusted(entry, contentOf, convert)
    case Returned(_, outcome) => outcome.Answer?
  }

  ghost predicate Inv<V>(w: World<V>, contentOf: Identity, convert: Convert<V>)
  {
    && (forall key :: key in w.objects ==> w.objects[key].content == contentOf(key, w.objects[key].etag.tag))
    && (forall e :: e in w.cache ==> Trusted(e, contentOf, convert))
    && (forall id :: id in w.calls ==> CallInv(w.calls[id], contentOf, convert))
  }

  lemma StepKeepsInv<V>(w: World<V>, action: Action, size: nat, contentOf: Identity, convert: Convert<V>)
    requires Inv(w, contentOf, convert) && Identifies(contentOf, action)
    ensures Inv(Step(w, action, size, convert), contentOf, convert)
  {
    match action {
      case PutObject(_, _, _) =>
      case DeleteObject(_) =>
      case Start(id, key) =>
        EntriesOfTouch(w.cache, key);
        var found := Find(w.cache, key);
        assert found.Some? ==> found.value in w.cache;
      case Reply(id, response) =>
        assert id in w.calls ==> CallInv(w.calls[id], contentOf, convert);
      case Finish(id) =>
        if id in w.calls && w.calls[id].Fetched? {
          assert CallInv(w.calls[id], contentOf, convert);
          EntriesOfPut(w.cache, w.calls[id].entry, size);
        }
    }
  }

  lemma {:induction false} RunKeepsInv<V>(actions: seq<Action>, size: nat, contentOf: Identity, convert: Convert<V>)
    requires forall a :: a in actions ==> Identifies(contentOf, a)
    ensures Inv(Run(actions, size, convert), contentOf, convert)
  {
    if actions != [] {
      var last := |actions| - 1;
      assert actions[last] in actions;
      RunKeepsInv(actions[..last], size, contentOf, convert);
      StepKeepsInv(Run(actions[..last], size, convert), actions[last], size, contentOf, convert);
    }
  }

  // ---- safety ----

  /** Over every run, whatever ETags mean, the unwrap on 304 never fails. */
  lemma {:induction false} NeverPanics<V>(actions: seq<Action>, id: CallId, size: nat, convert: Convert<V>)
    ensures var calls := Run(actions, size, convert).calls;
            id in calls && calls[id].Returned? ==> calls[id].outcome.Answer?
  {
    if actions != [] {
      var last := |actions| - 1;
      NeverPanics(actions[..last], id, size, convert);
    }
  }

  /** A reply leaves the call with the conversion of the object as it is at that instant, or with an error. */
  lemma ReplyIsCurrent<V>(w: World<V>, id: CallId, response: Response, size: nat,
                          contentOf: Identity, convert: Convert<V>)
    requires Inv(w, contentOf, convert) && id in w.calls && w.calls[id].Asking?
    requires Conforms(w.objects, w.calls[id].key, ETagOf(w.calls[id].cached), response)
    ensures var call := Step(w, Reply(id, response), size, convert).calls[id];
            match call
            case Fetched(key, entry) => IsCurrent(w, key, entry.value, convert)
            case Returned(key, outcome) =>
              outcome.Answer? && (outcome.result.Ok? ==> IsCurrent(w, key, outcome.result.value, convert))
            case Asking(_, _) => false
  {
    assert CallInv(w.calls[id], contentOf, convert);
  }

  /** The value converts the content the object has now. */
  ghost predicate IsCurrent<V>(w: World<V>, key: string, value: V, convert: Convert<V>)
  {
    key in w.objects && exists byteLen :: convert(w.objects[key].content) == Some((value, byteLen))
  }

  ghost predicate FreshAt<V>(actions: seq<Action>, k: int, id: CallId, key: string,
                             value: V, size: nat, convert: Convert<V>)
    requires 0 <= k <= |actions|
  {
    var w := Run(actions[..k], size, convert);
    id in w.calls && w.calls[id].Asking? && w.calls[id].key == key && IsCurrent(w, key, value, convert)
  }

  /** At some instant of this very call, before its reply, the value converted what the object then held. */
  ghost predicate WasCurrentDuring<V>(actions: seq<Action>, id: CallId, key: string,
                                      value: V, size: nat, convert: Convert<V>)
  {
    exists k :: 0 <= k <= |actions| && FreshAt(actions, k, id, key, value, size, convert)
  }

  ghost predicate HoldsFresh<V>(actions: seq<Action>, id: CallId, call: Call<V>, size: nat, convert: Convert<V>)
  {
    && (call.Fetched? ==> WasCurrentDuring(actions, id, call.key, call.entry.value, size, convert))
    && (call.Returned? && call.outcome.Answer? && call.outcome.result.Ok? ==>
          WasCurrentDuring(actions, id, call.key, call.outcome.result.value, size, convert))
  }

  lemma StillWasCurrent<V>(actions: seq<Action>, action: Action, id: CallId,
                           key: string, value: V, size: nat, convert: Convert<V>)
    requires WasCurrentDuring(actions, id, key, value, size, convert)
    ensures WasCurrentDuring(actions + [action], id, key, value, size, convert)
  {
    var k :| 0 <= k <= |actions| && FreshAt(actions, k, id, key, value, size, convert);
    assert (actions + [action])[..k] == actions[..k];
    assert FreshAt(actions + [action], k, id, key, value, size, convert);
  }

  lemma {:induction false} StepKeepsFresh<V>(actions: seq<Action>, action: Action, id: CallId,
                                             size: nat, contentOf: Identity, convert: Convert<V>)
    requires Inv(Run(actions, size, convert), contentOf, convert)
    requires id in Run(actions, size, convert).calls
    requires HoldsFresh(actions, id, Run(actions, size, convert).calls[id], size, convert)
    ensures var w' := Step(Run(actions, size, convert), action, size, convert);
            HoldsFresh(actions + [action], id, w'.calls[id], size, convert)
  {
    var w := Run(actions, size, convert);
    var call, call' := w.calls[id], Step(w, action, size, convert).calls[id];
    if call.Asking? {
      if call' != call {
        ReplyIsCurrent(w, id, action.response, size, contentOf, convert);
        assert (actions + [action])[..|actions|] == actions;
        if call'.Fetched? {
          assert FreshAt(actions + [action], |actions|, id, call.key, call'.entry.value, size, convert);
        } else if call'.outcome.Answer? && call'.outcome.result.Ok? {
          assert FreshAt(actions + [action], |actions|, id, call.key, call'.outcome.result.value, size, convert);
        }
      }
    } else if call.Fetched? {
      StillWasCurrent(actions, action, id, call.key, call.entry.value, size, convert);
    } else if call.outcome.Answer? && call.outcome.result.Ok? {
      StillWasCurrent(actions, action, id, call.key, call.outcome.result.value, size, convert);
    }
  }

  /**
   Against any conforming server whose ETags fix content, in every interleaving, a get that succeeds returns
   the conversion of what the object held at some instant of that get.
   */
  lemma {:induction false} EveryGetIsCurrent<V>(actions: seq<Action>, id: CallId, size: nat,
                                                contentOf: Identity, convert: Convert<V>)
    requires forall a :: a in actions ==> Identifies(contentOf, a)
    requires id in Run(actions, size, convert).calls
    ensures HoldsFresh(actions, id, Run(actions, size, convert).calls[id], size, convert)
  {
    if actions != [] {
      var last := |actions| - 1;
      var front := actions[..last];
      assert front + [actions[last]] == actions;
      RunNext(front, actions[last], size, convert);
      if id in Run(front, size, convert).calls {
        EveryGetIsCurrent(front, id, size, contentOf, convert);
        RunKeepsInv(front, size, contentOf, convert);
        StepKeepsFresh(front, actions[last], id, size, contentOf, convert);
      }
    }
  }
}
