/** A recency deque bounded by bytes, front most recent: the cache both adapters keep under their lock. */
module LruStore {
  import opened Options

  /** `stamp` is what revalidation compares: the file's (mtime, size), or an ETag. */
  datatype Entry<+V, +S> = Entry(key: string, value: V, byteLen: nat, stamp: S)

  type Deque<V, S> = seq<Entry<V, S>>

  /** The position of the first entry with this key, or the length when there is none. */
  function Position<V, S>(d: Deque<V, S>, key: string): (i: nat)
    ensures i <= |d|
    ensures i < |d| ==> d[i].key == key
    ensures forall k :: 0 <= k < i ==> d[k].key != key
  {
    if d == [] || d[0].key == key then 0 else 1 + Position(d[1..], key)
  }

  predicate HasKey<V, S>(d: Deque<V, S>, key: string)
  {
    Position(d, key) < |d|
  }

  function Find<V, S>(d: Deque<V, S>, key: string): (e: Option<Entry<V, S>>)
  {
    var i := Position(d, key);
    if i < |d| then Some(d[i]) else None
  }

  function DropAt<T>(s: seq<T>, i: nat): (rest: seq<T>)
  {
    if i < |s| then s[..i] + s[i + 1..] else s
  }

  function Without<V, S>(d: Deque<V, S>, key: string): (rest: Deque<V, S>)
  {
    DropAt(d, Position(d, key))
  }

  /** A hit moves the entry to the front. */
  function Touch<V, S>(d: Deque<V, S>, key: string): (d': Deque<V, S>)
  {
    match Find(d, key)
    case Some(e) => [e] + Without(d, key)
    case None => d
  }

  function Bytes<V, S>(d: Deque<V, S>): (total: nat)
  {
    if d == [] then 0 else d[0].byteLen + Bytes(d[1..])
  }

  /** Entries from the front until the next one would exceed the size. */
  function Keep<V, S>(d: Deque<V, S>, size: nat): (kept: Deque<V, S>)
  {
    if d == [] || d[0].byteLen > size then [] else [d[0]] + Keep(d[1..], size - d[0].byteLen)
  }

  function Put<V, S>(d: Deque<V, S>, e: Entry<V, S>, size: nat): (d': Deque<V, S>)
  {
    Keep([e] + Without(d, e.key), size)
  }

  ghost predicate UniqueKeys<V, S>(d: Deque<V, S>)
  {
    forall i, j :: 0 <= i < j < |d| ==> d[i].key != d[j].key
  }

  ghost predicate Bounded<V, S>(d: Deque<V, S>, size: nat)
  {
    UniqueKeys(d) && Bytes(d) <= size
  }

  // ---- truncation keeps the longest prefix that fits ----

  lemma {:induction false} BytesAppend<V, S>(d: Deque<V, S>, more: Deque<V, S>)
    ensures Bytes(d + more) == Bytes(d) + Bytes(more)
  {
    if d == [] {
      assert d + more == more;
    } else {
      assert (d + more)[1..] == d[1..] + more;
      BytesAppend(d[1..], more);
    }
  }

  lemma {:induction false} KeepIsLongestFittingPrefix<V, S>(d: Deque<V, S>, size: nat)
    ensures Keep(d, size) <= d && Bytes(Keep(d, size)) <= size
    ensures forall n :: 0 <= n <= |d| && Bytes(d[..n]) <= size ==> n <= |Keep(d, size)|
  {
    if d != [] {
      forall n | 0 <= n <= |d| && Bytes(d[..n]) <= size
        ensures n <= |Keep(d, size)|
      {
        if n > 0 {
          assert d[..n][1..] == d[1..][..n - 1];
          assert d[0].byteLen <= size;
          KeepIsLongestFittingPrefix(d[1..], size - d[0].byteLen);
        }
      }
      if d[0].byteLen <= size {
        KeepIsLongestFittingPrefix(d[1..], size - d[0].byteLen);
      }
    }
  }

  /** The prefix is determined by that. */
  lemma {:induction false} KeepUnique<V, S>(d: Deque<V, S>, size: nat, n: nat)
    requires n <= |d| && Bytes(d[..n]) <= size
    requires n < |d| ==> Bytes(d[..n + 1]) > size
    ensures Keep(d, size) == d[..n]
  {
    KeepIsLongestFittingPrefix(d, size);
    var m := |Keep(d, size)|;
    assert Keep(d, size) == d[..m];
    if n < m {
      assert d[..m] == d[..n + 1] + d[n + 1..m];
      BytesAppend(d[..n + 1], d[n + 1..m]);
    }
  }

  // ---- keys stay unique, bytes stay bounded ----

  lemma WithoutUnique<V, S>(d: Deque<V, S>, key: string)
    requires UniqueKeys(d)
    ensures UniqueKeys(Without(d, key))
    ensures forall k :: 0 <= k < |Without(d, key)| ==> Without(d, key)[k].key != key
  {
    var i := Position(d, key);
    var rest := Without(d, key);
    if i < |d| {
      assert forall k :: 0 <= k < |rest| ==> rest[k] == d[if k < i then k else k + 1];
    }
  }

  lemma ConsUnique<V, S>(e: Entry<V, S>, d: Deque<V, S>)
    requires UniqueKeys(d) && forall k :: 0 <= k < |d| ==> d[k].key != e.key
    ensures UniqueKeys([e] + d)
  {
  }

  lemma {:induction false} BytesWithout<V, S>(d: Deque<V, S>, key: string)
    ensures match Find(d, key)
            case Some(e) => Bytes([e] + Without(d, key)) == Bytes(d)
            case None => Without(d, key) == d
  {
    var i := Position(d, key);
    if i < |d| {
      assert d == d[..i] + ([d[i]] + d[i + 1..]);
      BytesAppend(d[..i], [d[i]] + d[i + 1..]);
      BytesAppend([d[i]], d[i + 1..]);
      BytesAppend(d[..i], d[i + 1..]);
      BytesAppend([d[i]], Without(d, key));
    }
  }

  lemma TouchKeepsBound<V, S>(d: Deque<V, S>, key: string, size: nat)
    requires Bounded(d, size)
    ensures Bounded(Touch(d, key), size)
  {
    var found := Find(d, key);
    if found.Some? {
      BytesWithout(d, key);
      WithoutUnique(d, key);
      ConsUnique(found.value, Without(d, key));
    }
  }

  lemma PutKeepsBound<V, S>(d: Deque<V, S>, e: Entry<V, S>, size: nat)
    requires UniqueKeys(d)
    ensures Bounded(Put(d, e, size), size)
  {
    WithoutUnique(d, e.key);
    ConsUnique(e, Without(d, e.key));
    var full := [e] + Without(d, e.key);
    KeepIsLongestFittingPrefix(full, size);
    assert forall k :: 0 <= k < |Keep(full, size)| ==> Keep(full, size)[k] == full[k];
  }

  /** Neither operation invents an entry. */
  lemma EntriesOfTouch<V, S>(d: Deque<V, S>, key: string)
    ensures forall e :: e in Touch(d, key) ==> e in d
  {
  }

  lemma EntriesOfPut<V, S>(d: Deque<V, S>, entry: Entry<V, S>, size: nat)
    ensures forall e :: e in Put(d, entry, size) ==> e == entry || e in d
  {
    KeepIsLongestFittingPrefix([entry] + Without(d, entry.key), size);
  }

  // ---- the object ----

  class Store<V, S> {
    var cache: Deque<V, S>
    const size: nat

    ghost predicate Valid()
      reads this
    {
      Bounded(cache, size)
    }

    constructor (size: nat)
      ensures Valid() && cache == [] && this.size == size
    {
      this.size := size;
      cache := [];
    }

    method TryHit(key: string) returns (hit: Option<Entry<V, S>>)
      requires Valid()
      modifies this
      ensures Valid()
      ensures hit == Find(old(cache), key) && cache == Touch(old(cache), key)
    {
      var index := FindIndex(key);
      if index == |cache| {
        return None;
      }
      var entry := cache[index];
      cache := cache[..index] + cache[index + 1..];
      cache := [entry] + cache;
      hit := Some(entry);
      TouchKeepsBound(old(cache), key, size);
    }

    method FindIndex(key: string) returns (index: nat)
      ensures index == Position(cache, key)
    {
      index := 0;
      while index < |cache| && cache[index].key != key
        invariant index <= |cache| && forall k :: 0 <= k < index ==> cache[k].key != key
      {
        index := index + 1;
      }
      var p := Position(cache, key);
      assert p == index;
    }

    /** The loop at the end of a put: adds up bytes from the front and drains from the first excess on. */
    method Truncate()
      modifies this
      ensures cache == Keep(old(cache), size)
    {
      ghost var full := cache;
      var cachedBytes := 0;
      var i := 0;
      while i < |cache|
        invariant i <= |full| && cache == full
        invariant cachedBytes == Bytes(full[..i]) <= size
      {
        assert full[..i + 1] == full[..i] + [full[i]];
        BytesAppend(full[..i], [full[i]]);
        cachedBytes := cachedBytes + cache[i].byteLen;
        if cachedBytes > size {
          KeepUnique(full, size, i);
          cache := cache[..i];
          return;
        }
        i := i + 1;
      }
      assert full[..|full|] == full;
      KeepUnique(full, size, |full|);
    }

    method PutToCache(entry: Entry<V, S>)
      requires Valid()
      modifies this
      ensures Valid()
      ensures cache == Put(old(cache), entry, size)
    {
      var index := FindIndex(entry.key);
      if index < |cache| {
        cache := cache[..index] + cache[index + 1..];
      }
      cache := [entry] + cache;
      Truncate();
      PutKeepsBound(old(cache), entry, size);
    }
  }
}
