/** The file-system adapter: a cached value is served while the file's (mtime, size) is unchanged. */
module FsCache {
  import opened Options
  import opened Bytes
  import opened LruStore
  import opened AdaptCache

  datatype Stamp = Stamp(mtime: nat, size: nat)

  /** What the metadata call answers: no such file, another error, or a stamp. */
  datatype Metadata = Missing | Unreadable | Known(stamp: Stamp)

  /** What the second metadata call and the read answer together. */
  datatype Fetched = FetchFailed | Fetched(data: seq<byte>, stamp: Stamp)

  predicate IsFresh<V>(d: Deque<V, Stamp>, path: string, stamp: Stamp)
  {
    HasKey(d, path) && d[Position(d, path)].stamp == stamp
  }

  /** One undisturbed `get`: its answer and the cache it leaves. The lookup moves the entry before anything can fail. */
  function Get<V>(d: Deque<V, Stamp>, size: nat, path: string,
                  metadata: Metadata, fetched: Fetched, convert: Convert<V>)
    : (r: (Result<V>, Deque<V, Stamp>))
  {
    var touched := Touch(d, path);
    match metadata
    case Missing => (Err(NotFound), touched)
    case Unreadable => (Err(StorageError), touched)
    case Known(stamp) =>
      if IsFresh(d, path, stamp) then (Ok(d[Position(d, path)].value), touched)
      else if fetched.FetchFailed? then (Err(StorageError), touched)
      else match convert(fetched.data)
        case None => (Err(ConvertError), touched)
        case Some((value, byteLen)) =>
          (Ok(value), Put(touched, Entry(path, value, byteLen, fetched.stamp), size))
  }

  /** The answers: a missing file, another error, the cached value while time and size are the same, or a new one. */
  lemma AnswersExactly<V>(d: Deque<V, Stamp>, size: nat, path: string,
                          metadata: Metadata, fetched: Fetched, convert: Convert<V>)
    ensures var r := Get(d, size, path, metadata, fetched, convert).0;
            && (r == Err(NotFound) <==> metadata == Missing)
            && (metadata == Unreadable ==> r == Err(StorageError))
            && (metadata.Known? && IsServed(d, path, metadata.stamp) ==> r == Ok(Find(d, path).value.value))
            && (metadata.Known? && !IsServed(d, path, metadata.stamp) ==>
                  && (r == Err(StorageError) <==> fetched == FetchFailed)
                  && (r == Err(ConvertError) <==> fetched.Fetched? && convert(fetched.data) == None)
                  && (r.Ok? <==> fetched.Fetched? && convert(fetched.data).Some?)
                  && (r.Ok? ==> r.value == convert(fetched.data).value.0))
  {
  }

  predicate IsServed<V>(d: Deque<V, Stamp>, path: string, stamp: Stamp)
  {
    var cached := Find(d, path);
    cached.Some? && cached.value.stamp.mtime == stamp.mtime && cached.value.stamp.size == stamp.size
  }

  /** What is stored: nothing on any failure or hit, where only the lookup shows; otherwise the new entry in front. */
  lemma StoresExactly<V>(d: Deque<V, Stamp>, size: nat, path: string,
                         metadata: Metadata, fetched: Fetched, convert: Convert<V>)
    ensures var (r, d') := Get(d, size, path, metadata, fetched, convert);
            if r.Err? || (metadata.Known? && IsServed(d, path, metadata.stamp)) then d' == Touch(d, path)
            else fetched.Fetched? && convert(fetched.data).Some?
                 && var (value, byteLen) := convert(fetched.data).value;
                    d' == Put(Touch(d, path), Entry(path, value, byteLen, fetched.stamp), size)
  {
  }

  class FsAdaptCache<V> {
    const store: Store<V, Stamp>

    constructor (size: nat)
      ensures store.Valid() && store.cache == [] && store.size == size && fresh(store)
    {
      store := new Store(size);
    }

    method GetImpl(path: string, metadata: Metadata, fetched: Fetched, convert: Convert<V>) returns (r: Result<V>)
      requires store.Valid()
      modifies store
      ensures store.Valid()
      ensures (r, store.cache) == Get(old(store.cache), store.size, path, metadata, fetched, convert)
    {
      var cached := store.TryHit(path);
      match metadata {
        case Missing =>
          return Err(NotFound);
        case Unreadable =>
          return Err(StorageError);
        case Known(stamp) =>
          if cached.Some? && cached.value.stamp.mtime == stamp.mtime && cached.value.stamp.size == stamp.size {
            return Ok(cached.value.value);
          }
          r := FetchAndCache(path, fetched, convert);
      }
    }

    method FetchAndCache(path: string, fetched: Fetched, convert: Convert<V>) returns (r: Result<V>)
      requires store.Valid()
      modifies store
      ensures store.Valid()
      ensures match fetched
              case FetchFailed => r == Err(StorageError) && store.cache == old(store.cache)
              case Fetched(data, stamp) =>
                match convert(data)
                case None => r == Err(ConvertError) && store.cache == old(store.cache)
                case Some((value, byteLen)) =>
                  r == Ok(value) && store.cache == Put(old(store.cache), Entry(path, value, byteLen, stamp), store.size)
    {
      match fetched {
        case FetchFailed =>
          r := Err(StorageError);
        case Fetched(data, stamp) =>
          match convert(data) {
            case None =>
              r := Err(ConvertError);
            case Some((value, byteLen)) =>
              store.PutToCache(Entry(path, value, byteLen, stamp));
              r := Ok(value);
          }
      }
    }
  }
}
