/** Runs of whole gets: a smaller cache always holds a prefix of what a larger one holds. */
module LruInclusion {
  import opened Options
  import opened Bytes
  import opened LruStore
  import opened AdaptCache
  import opened FsCache

  /** The content that a path and a stamp fix. */
  type Contents = (string, Stamp) -> seq<byte>

  /** A get of a file that has this stamp throughout, or a get that fails after its lookup. */
  datatype Access = Served(path: string, stamp: Stamp) | Failed(path: string)

  ghost predicate Converts<V>(a: Access, contents: Contents, convert: Convert<V>)
  {
    a.Served? && convert(contents(a.path, a.stamp)).Some?
  }

  function After<V>(d: Deque<V, Stamp>, size: nat, a: Access, contents: Contents,
                    convert: Convert<V>): (d': Deque<V, Stamp>)
  {
    match a
    case Served(path, stamp) => Get(d, size, path, Known(stamp), Fetched(contents(path, stamp), stamp), convert).1
    case Failed(path) => Get(d, size, path, Unreadable, FetchFailed, convert).1
  }

  function Run<V>(size: nat, accesses: seq<Access>, contents: Contents, convert: Convert<V>): (d: Deque<V, Stamp>)
  {
    if accesses == [] then [] else
    var last := |accesses| - 1;
    After(Run(size, accesses[..last], contents, convert), size, accesses[last], contents, convert)
  }

  predicate Hits<V>(d: Deque<V, Stamp>, a: Access)
  {
    a.Served? && IsFresh(d, a.path, a.stamp)
  }

  /** The entry a successful get leaves at the front. */
  function EntryFor<V>(a: Access, contents: Contents, convert: Convert<V>): (e: Entry<V, Stamp>)
    requires Converts(a, contents, convert)
  {
    var (value, byteLen) := convert(contents(a.path, a.stamp)).value;
    Entry(a.path, value, byteLen, a.stamp)
  }

  /** Every entry is the conversion of the content its key and stamp fix. */
  ghost predicate Genuine<V>(d: Deque<V, Stamp>, contents: Contents, convert: Convert<V>)
  {
    forall i :: 0 <= i < |d| ==>
      var a := Served(d[i].key, d[i].stamp);
      Converts(a, contents, convert) && d[i] == EntryFor(a, contents, convert)
  }

  ghost predicate Good<V>(d: Deque<V, Stamp>, contents: Contents, convert: Convert<V>)
  {
    UniqueKeys(d) && Genuine(d, contents, convert)
  }

  lemma TouchedWithout<V>(d: Deque<V, Stamp>, key: string)
    requires UniqueKeys(d)
    ensures Without(Touch(d, key), key) == Without(d, key)
  {
    var i := Position(d, key);
    if i < |d| {
      assert Touch(d, key)[0] == d[i];
      assert Touch(d, key)[1..] == Without(d, key);
    }
  }

  /** Hit or miss, a successful get puts the same entry in front of the others; only a miss truncates. */
  lemma {:induction false} ServedDeque<V>(d: Deque<V, Stamp>, size: nat, a: Access,
                                          contents: Contents, convert: Convert<V>)
    requires Good(d, contents, convert) && Converts(a, contents, convert)
    ensures var full := [EntryFor(a, contents, convert)] + Without(d, a.path);
            After(d, size, a, contents, convert) == if Hits(d, a) then full else Keep(full, size)
  {
    TouchedWithout(d, a.path);
  }

  lemma WithoutGood<V>(d: Deque<V, Stamp>, key: string, contents: Contents, convert: Convert<V>)
    requires Good(d, contents, convert)
    ensures Good(Without(d, key), contents, convert)
    ensures forall k :: 0 <= k < |Without(d, key)| ==> Without(d, key)[k].key != key
  {
    WithoutUnique(d, key);
    var i, rest := Position(d, key), Without(d, key);
    forall k | 0 <= k < |rest|
      ensures rest[k] in d
    {
      assert rest[k] == d[if k < i then k else k + 1];
    }
  }

  lemma AfterGood<V>(d: Deque<V, Stamp>, size: nat, a: Access, contents: Contents, convert: Convert<V>)
    requires Good(d, contents, convert) && Converts(a, contents, convert)
    ensures Good(After(d, size, a, contents, convert), contents, convert)
  {
    var e := EntryFor(a, contents, convert);
    var full := [e] + Without(d, a.path);
    WithoutGood(d, a.path, contents, convert);
    ConsUnique(e, Without(d, a.path));
    assert Good(full, contents, convert);
    KeepIsLongestFittingPrefix(full, size);
    var kept := Keep(full, size);
    assert forall k :: 0 <= k < |kept| ==> kept[k] == full[k];
    ServedDeque(d, size, a, contents, convert);
  }

  /** Whatever the gets and however they end, keys are unique and the bytes stay within the size. */
  lemma {:induction false} RunIsBounded<V>(size: nat, accesses: seq<Access>, contents: Contents, convert: Convert<V>)
    ensures Bounded(Run(size, accesses, contents, convert), size)
  {
    if accesses != [] {
      var last := |accesses| - 1;
      var d := Run(size, accesses[..last], contents, convert);
      RunIsBounded(size, accesses[..last], contents, convert);
      AfterIsBounded(d, size, accesses[last], contents, convert);
    }
  }

  lemma AfterIsBounded<V>(d: Deque<V, Stamp>, size: nat, a: Access, contents: Contents, convert: Convert<V>)
    requires Bounded(d, size)
    ensures Bounded(After(d, size, a, contents, convert), size)
  {
    TouchKeepsBound(d, a.path, size);
    if Converts(a, contents, convert) {
      PutKeepsBound(Touch(d, a.path), EntryFor(a, contents, convert), size);
    }
  }

  // ---- one step ----

  lemma {:induction false} KeepMonotone<V>(d: Deque<V, Stamp>, more: Deque<V, Stamp>, small: nat, large: nat)
    requires d <= more && small <= large
    ensures Keep(d, small) <= Keep(more, large)
  {
    if d != [] && d[0].byteLen <= small {
      assert d[1..] <= more[1..];
      KeepMonotone(d[1..], more[1..], small - d[0].byteLen, large - d[0].byteLen);
    }
  }

  lemma {:induction false} PositionAppend<V>(d: Deque<V, Stamp>, tail: Deque<V, Stamp>, key: string)
    ensures Position(d + tail, key) ==
            if Position(d, key) < |d| then Position(d, key) else |d| + Position(tail, key)
  {
    if d == [] {
      assert d + tail == tail;
    } else if d[0].key != key {
      assert (d + tail)[1..] == d[1..] + tail;
      PositionAppend(d[1..], tail, key);
    }
  }

  lemma DropFromFront<T>(a: seq<T>, b: seq<T>, i: nat)
    requires i < |a|
    ensures DropAt(a + b, i) == DropAt(a, i) + b
  {
    assert (a + b)[..i] == a[..i];
    assert (a + b)[i + 1..] == a[i + 1..] + b;
  }

  lemma DropFromBack<T>(a: seq<T>, b: seq<T>, j: nat)
    ensures DropAt(a + b, |a| + j) == a + DropAt(b, j)
  {
    if j < |b| {
      assert (a + b)[..|a| + j] == a + b[..j];
      assert (a + b)[|a| + j + 1..] == b[j + 1..];
    }
  }

  lemma WithoutAppend<V>(d: Deque<V, Stamp>, tail: Deque<V, Stamp>, key: string)
    ensures Without(d + tail, key) == if HasKey(d, key) then Without(d, key) + tail else d + Without(tail, key)
  {
    PositionAppend(d, tail, key);
    if HasKey(d, key) {
      DropFromFront(d, tail, Position(d, key));
    } else {
      DropFromBack(d, tail, Position(tail, key));
      assert Without(d + tail, key) == DropAt(d + tail, |d| + Position(tail, key));
    }
  }

  lemma {:induction false} WithoutMonotone<V>(d: Deque<V, Stamp>, more: Deque<V, Stamp>, key: string)
    requires d <= more
    ensures Without(d, key) <= Without(more, key)
    ensures HasKey(d, key) ==> HasKey(more, key) && Position(more, key) == Position(d, key)
  {
    var tail := more[|d|..];
    assert more == d + tail;
    PositionAppend(d, tail, key);
    WithoutAppend(d, tail, key);
  }

  lemma ServedKeepsPrefix<V>(d: Deque<V, Stamp>, more: Deque<V, Stamp>, small: nat, large: nat,
                             a: Access, contents: Contents, convert: Convert<V>)
    requires d <= more && small <= large && UniqueKeys(d)
    requires Good(d, contents, convert) && Good(more, contents, convert) && Converts(a, contents, convert)
    ensures Hits(d, a) ==> Hits(more, a)
    ensures After(d, small, a, contents, convert) <= After(more, large, a, contents, convert)
  {
    var e := EntryFor(a, contents, convert);
    ServedDeque(d, small, a, contents, convert);
    ServedDeque(more, large, a, contents, convert);
    WithoutMonotone(d, more, a.path);
    var full, fuller := [e] + Without(d, a.path), [e] + Without(more, a.path);
    assert full <= fuller;
    KeepMonotone(full, fuller, small, large);
    KeepIsLongestFittingPrefix(full, small);
  }

  // ---- whole runs ----

  ghost predicate AllServed<V>(accesses: seq<Access>, contents: Contents, convert: Convert<V>)
  {
    forall i :: 0 <= i < |accesses| ==> Converts(accesses[i], contents, convert)
  }

  /** Over every run of successful gets on the same files, the smaller cache's deque is a prefix of the larger one's. */
  lemma {:induction false} Inclusion<V>(small: nat, large: nat, accesses: seq<Access>,
                                        contents: Contents, convert: Convert<V>)
    requires small <= large && AllServed(accesses, contents, convert)
    ensures Run(small, accesses, contents, convert) <= Run(large, accesses, contents, convert)
  {
    if accesses != [] {
      var last := |accesses| - 1;
      var front := accesses[..last];
      Inclusion(small, large, front, contents, convert);
      RunIsGood(small, front, contents, convert);
      RunIsGood(large, front, contents, convert);
      ServedKeepsPrefix(Run(small, front, contents, convert), Run(large, front, contents, convert),
                        small, large, accesses[last], contents, convert);
    }
  }

  /** After any such run, a get that hits in the smaller cache hits in the larger one. */
  lemma {:induction false} HitsAreIncluded<V>(small: nat, large: nat, accesses: seq<Access>,
                                              a: Access, contents: Contents, convert: Convert<V>)
    requires small <= large && AllServed(accesses, contents, convert)
    requires Hits(Run(small, accesses, contents, convert), a)
    ensures Hits(Run(large, accesses, contents, convert), a)
  {
    Inclusion(small, large, accesses, contents, convert);
    RunIsGood(large, accesses, contents, convert);
    WithoutMonotone(Run(small, accesses, contents, convert), Run(large, accesses, contents, convert), a.path);
  }

  // ---- gets that fail ----

  /**
   A get that fails after its lookup keeps the prefix if and only if the smaller cache held the key, or the
   larger one did not, or the smaller one is empty.
   */
  lemma FailedKeepsPrefix<V>(d: Deque<V, Stamp>, more: Deque<V, Stamp>, path: string)
    requires d <= more && UniqueKeys(more)
    ensures Touch(d, path) <= Touch(more, path) <==> HasKey(d, path) || !HasKey(more, path) || d == []
  {
    WithoutMonotone(d, more, path);
    if HasKey(more, path) && !HasKey(d, path) && d != [] {
      assert Touch(d, path)[0].key != path;
      assert Touch(more, path)[0].key == path;
    }
  }

  /** A get that fails keeps the prefix relation between the two deques. */
  ghost predicate IsHarmless<V>(d: Deque<V, Stamp>, more: Deque<V, Stamp>, a: Access,
                                contents: Contents, convert: Convert<V>)
  {
    Converts(a, contents, convert) || HasKey(d, a.path) || !HasKey(more, a.path) || d == []
  }

  /** A get fails before its content is converted, or because it does not convert: either way only the lookup shows. */
  lemma FailedDeque<V>(d: Deque<V, Stamp>, size: nat, a: Access, contents: Contents, convert: Convert<V>)
    requires Good(d, contents, convert) && !Converts(a, contents, convert)
    ensures After(d, size, a, contents, convert) == Touch(d, a.path)
  {
    assert !Hits(d, a);
  }

  lemma TouchGood<V>(d: Deque<V, Stamp>, key: string, contents: Contents, convert: Convert<V>)
    requires Good(d, contents, convert)
    ensures Good(Touch(d, key), contents, convert)
  {
    TouchKeepsBound(d, key, LruStore.Bytes(d));
    EntriesOfTouch(d, key);
    forall i | 0 <= i < |Touch(d, key)|
      ensures var a := Served(Touch(d, key)[i].key, Touch(d, key)[i].stamp);
              Converts(a, contents, convert) && Touch(d, key)[i] == EntryFor(a, contents, convert)
    {
      assert Touch(d, key)[i] in Touch(d, key);
      var k :| 0 <= k < |d| && d[k] == Touch(d, key)[i];
    }
  }

  lemma {:induction false} RunIsGood<V>(size: nat, accesses: seq<Access>, contents: Contents, convert: Convert<V>)
    ensures Good(Run(size, accesses, contents, convert), contents, convert)
  {
    if accesses != [] {
      var last := |accesses| - 1;
      var d := Run(size, accesses[..last], contents, convert);
      RunIsGood(size, accesses[..last], contents, convert);
      if Converts(accesses[last], contents, convert) {
        AfterGood(d, size, accesses[last], contents, convert);
      } else {
        FailedDeque(d, size, accesses[last], contents, convert);
        TouchGood(d, accesses[last].path, contents, convert);
      }
    }
  }

  /** From prefix-related deques, one more get keeps the relation if and only if it is harmless. */
  lemma AccessKeepsPrefix<V>(d: Deque<V, Stamp>, more: Deque<V, Stamp>, small: nat, large: nat,
                             a: Access, contents: Contents, convert: Convert<V>)
    requires d <= more && small <= large
    requires Good(d, contents, convert) && Good(more, contents, convert)
    ensures After(d, small, a, contents, convert) <= After(more, large, a, contents, convert) <==>
            IsHarmless(d, more, a, contents, convert)
  {
    if Converts(a, contents, convert) {
      ServedKeepsPrefix(d, more, small, large, a, contents, convert);
    } else {
      FailedDeque(d, small, a, contents, convert);
      FailedDeque(more, large, a, contents, convert);
      FailedKeepsPrefix(d, more, a.path);
    }
  }

  ghost predicate PrefixAt<V>(small: nat, large: nat, accesses: seq<Access>,
                              n: nat, contents: Contents, convert: Convert<V>)
    requires n <= |accesses|
  {
    Run(small, accesses[..n], contents, convert) <= Run(large, accesses[..n], contents, convert)
  }

  ghost predicate HarmlessAt<V>(small: nat, large: nat, accesses: seq<Access>,
                                n: nat, contents: Contents, convert: Convert<V>)
    requires n < |accesses|
  {
    IsHarmless(Run(small, accesses[..n], contents, convert), Run(large, accesses[..n], contents, convert), accesses[n],
               contents, convert)
  }

  lemma PrefixNext<V>(small: nat, large: nat, accesses: seq<Access>, n: nat, contents: Contents, convert: Convert<V>)
    requires small <= large && n < |accesses|
    requires PrefixAt(small, large, accesses, n, contents, convert)
    ensures PrefixAt(small, large, accesses, n + 1, contents, convert) <==>
            HarmlessAt(small, large, accesses, n, contents, convert)
  {
    var front := accesses[..n];
    assert accesses[..n + 1][..n] == front;
    RunIsGood(small, front, contents, convert);
    RunIsGood(large, front, contents, convert);
    AccessKeepsPrefix(Run(small, front, contents, convert), Run(large, front, contents, convert), small, large,
                      accesses[n], contents, convert);
  }

  lemma {:induction false} HarmlessKeepsPrefix<V>(small: nat, large: nat, accesses: seq<Access>,
                                                  n: nat, contents: Contents, convert: Convert<V>)
    requires small <= large && n <= |accesses|
    requires forall k :: 0 <= k < n ==> HarmlessAt(small, large, accesses, k, contents, convert)
    ensures PrefixAt(small, large, accesses, n, contents, convert)
    decreases n
  {
    if n > 0 {
      HarmlessKeepsPrefix(small, large, accesses, n - 1, contents, convert);
      PrefixNext(small, large, accesses, n - 1, contents, convert);
    }
  }

  /**
   Over every run, failed gets included, the smaller deque is a prefix of the larger one at every point if and
   only if each failed get, when it comes, finds its key in the smaller deque, or not in the larger one, or the
   smaller one empty.
   */
  lemma InclusionExactly<V>(small: nat, large: nat, accesses: seq<Access>, contents: Contents, convert: Convert<V>)
    requires small <= large
    ensures (forall n :: 0 <= n <= |accesses| ==> PrefixAt(small, large, accesses, n, contents, convert)) <==>
            (forall n :: 0 <= n < |accesses| ==> HarmlessAt(small, large, accesses, n, contents, convert))
  {
    if forall n :: 0 <= n <= |accesses| ==> PrefixAt(small, large, accesses, n, contents, convert) {
      forall n: nat | n < |accesses|
        ensures HarmlessAt(small, large, accesses, n, contents, convert)
      {
        PrefixNext(small, large, accesses, n, contents, convert);
      }
    }
    if forall n :: 0 <= n < |accesses| ==> HarmlessAt(small, large, accesses, n, contents, convert) {
      forall n: nat | n <= |accesses|
        ensures PrefixAt(small, large, accesses, n, contents, convert)
      {
        HarmlessKeepsPrefix(small, large, accesses, n, contents, convert);
      }
    }
  }

  // ---- a larger cache can miss where a smaller one hits ----

  /** Three files that differ only in the bytes they count for. */
  function Bulk(data: seq<byte>): (r: Option<(seq<byte>, nat)>)
  {
    if |data| == 1 then Some((data, data[0])) else None
  }

  function ByName(path: string, stamp: Stamp): (data: seq<byte>)
  {
    [if path == "x" then 10 else if path == "f" then 5 else 1]
  }

  const ANY := Stamp(0, 1)

  lemma {:induction false} KeepCons<V>(e: Entry<V, Stamp>, d: Deque<V, Stamp>, size: nat)
    ensures Keep([e] + d, size) == if e.byteLen > size then [] else [e] + Keep(d, size - e.byteLen)
  {
    assert ([e] + d)[1..] == d;
  }

  lemma {:induction false} MissDeque<V>(d: Deque<V, Stamp>, size: nat, a: Access,
                                        contents: Contents, convert: Convert<V>)
    requires Converts(a, contents, convert) && !HasKey(d, a.path)
    ensures var e := EntryFor(a, contents, convert);
            After(d, size, a, contents, convert) == if e.byteLen > size then [] else [e] + Keep(d, size - e.byteLen)
  {
    assert Touch(d, a.path) == d && Without(d, a.path) == d;
    KeepCons(EntryFor(a, contents, convert), d, size);
  }

  /** A get of a file the cache does not hold. */
  lemma {:induction false} MissNext<V>(size: nat, accesses: seq<Access>, a: Access,
                                       contents: Contents, convert: Convert<V>)
    requires Converts(a, contents, convert) && !HasKey(Run(size, accesses, contents, convert), a.path)
    ensures var e, d := EntryFor(a, contents, convert), Run(size, accesses, contents, convert);
            Run(size, accesses + [a], contents, convert) ==
            if e.byteLen > size then [] else [e] + Keep(d, size - e.byteLen)
  {
    MissDeque(Run(size, accesses, contents, convert), size, a, contents, convert);
    assert (accesses + [a])[..|accesses|] == accesses;
  }

  const X_THEN_A := [Served("x", ANY)] + [Served("a", ANY)]
  const WITH_FAILURE := X_THEN_A + [Failed("x")]

  lemma SmallerCacheHolds()
    ensures Run(10, WITH_FAILURE, ByName, Bulk) == [Entry("a", [1], 1, ANY)]
  {
    MissNext(10, [], Served("x", ANY), ByName, Bulk);
    assert [] + [Served("x", ANY)] == [Served("x", ANY)];
    assert Run(10, [Served("x", ANY)], ByName, Bulk) == [Entry("x", [10], 10, ANY)];
    MissNext(10, [Served("x", ANY)], Served("a", ANY), ByName, Bulk);
    assert WITH_FAILURE[..2] == X_THEN_A;
  }

  lemma LargerCacheHolds()
    ensures Run(11, WITH_FAILURE, ByName, Bulk) == [Entry("x", [10], 10, ANY), Entry("a", [1], 1, ANY)]
  {
    var x, a := Entry("x", [10], 10, ANY), Entry("a", [1], 1, ANY);
    MissNext(11, [], Served("x", ANY), ByName, Bulk);
    assert [] + [Served("x", ANY)] == [Served("x", ANY)];
    assert Run(11, [Served("x", ANY)], ByName, Bulk) == [x];
    MissNext(11, [Served("x", ANY)], Served("a", ANY), ByName, Bulk);
    KeepCons(x, [], 10);
    assert Run(11, X_THEN_A, ByName, Bulk) == [a, x];
    assert WITH_FAILURE[..2] == X_THEN_A;
  }

  const SQUEEZE := WITH_FAILURE + [Served("f", ANY)]

  lemma SmallerCacheKeepsIt()
    ensures Run(10, SQUEEZE, ByName, Bulk) == [Entry("f", [5], 5, ANY), Entry("a", [1], 1, ANY)]
  {
    var a: Entry<seq<byte>, Stamp> := Entry("a", [1], 1, ANY);
    SmallerCacheHolds();
    assert !HasKey([a], "f");
    MissNext(10, WITH_FAILURE, Served("f", ANY), ByName, Bulk);
    KeepCons(a, [], 5);
  }

  lemma LargerCacheDropsIt()
    ensures Run(11, SQUEEZE, ByName, Bulk) == [Entry("f", [5], 5, ANY)]
  {
    var x: Entry<seq<byte>, Stamp>, a: Entry<seq<byte>, Stamp> := Entry("x", [10], 10, ANY), Entry("a", [1], 1, ANY);
    LargerCacheHolds();
    assert !HasKey([x, a][1..], "f");
    MissNext(11, WITH_FAILURE, Served("f", ANY), ByName, Bulk);
  }

  /** With one failed get in the run, inclusion is lost: of caches of 10 and 11 bytes, only the smaller one hits. */
  lemma FailedGetInvertsSizes()
    ensures Hits(Run(10, SQUEEZE, ByName, Bulk), Served("a", ANY))
    ensures !Hits(Run(11, SQUEEZE, ByName, Bulk), Served("a", ANY))
  {
    var small, large := Run(10, SQUEEZE, ByName, Bulk), Run(11, SQUEEZE, ByName, Bulk);
    SmallerCacheKeepsIt();
    assert small[0].key == "f" && small[1].key == "a" && small[1].stamp == ANY;
    assert Position(small, "a") == 1;
    LargerCacheDropsIt();
    assert |large| == 1 && large[0].key == "f";
    assert !HasKey(large, "a");
  }
}
