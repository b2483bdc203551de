# Verified models of peko's stateful components

A Dafny model of the parts of peko that keep state or transform data, with proofs of what each is for.
`dafny verify dfyconfig.toml` checks the whole project.

- **Warm-up gossip map** (`ByteOrder`, `PresenceCodec`, `PresenceTable`, `WarmUpMap`, `StateTransfer`,
  `Rebroadcast`, `WarmUpRuns`, `BroadcastRuns`, `WarmUpMapNode`): a class with two nested maps and the delegate
  callbacks, proved against a functional merge; message replay and commutation, state transfer, push-pull agreement,
  conservation of broadcasts, and an invariant over every run.
- **Byte-bounded LRU cache** (`AdaptCache`, `LruStore`, `FsCache`, `LruInclusion`, `FsFreshness`, `FsHistories`,
  `S3Cache`): the recency deque as a class, whole runs of gets for the inclusion property, and gets split into steps interleaved
  with writers or with an object store for freshness.
- **Streaming JSON writer** (`JsonText`, `JsonParser`, `JsonRoundTrip`, `JsonValues`, `JsonSerializer`,
  `JsonReading`, `JsonCompact`, `JsonStream`): the serializer as a class, refined to a simple printer, which is read
  back by a reference parser for RFC 8259 and, given the type, as the value itself.
- **Shortest unique type names** (`TypeNames`, `NameResolution`, `TypeRenaming`, `RouteRenaming`).
- **CPU-time tracker** (`CpuTime`): a state machine of one poller and any number of readers.
- **Exponential then binary search** (`SlotSearch`).
- **Route compiler and router** (`PathSegments`, `Routes`).

The environment enters as parameters: the transport's framing, file metadata and contents, server responses, the
clock, the conversion of cached bytes, and whether an engine of a given size can be built. A call that panics in
the source has a result that says so.

No lemma relies on automatic induction.

Where a law does not hold of the code, the model keeps the code, gives inputs for which it fails, and states the exact
condition:

- The control-character table of the JSON writer is indexed as if all its entries were six bytes wide, but four of
  them are two. Bytes 0x0b and 0x0e to 0x1c come out as other text, and 0x1d to 0x1f make the slice fail.
- A change of liveness wins whatever the timestamps, so two nodes that exchange snapshots taken before either merge
  swap such a key instead of settling it.
- A get that fails has already moved its entry to the front, which breaks inclusion between cache sizes.
- Between the clearing of a poll's start and the addition of its length, another thread reads too little; between the
  end of a poll and its clearing, it reads time that is never added. Either way a later read can return less.
- A file's stamp can return with another content behind it, or be stored with a content that came after it.
- A route segment that starts with a colon becomes a parameter that the wrapper generator does not know, and a
  repeated parameter name loses the earlier value.
- Definitions whose distinct full paths strip to the same path share a reference, and a reference to something that is
  no definition, such as a recursive enum, is captured by a definition whose new reference is the same text.

## Model

| member | source | states |
|---|---|---|
| `PresenceCodec.DecodeEncode` | fn0/src/warm_up_map.rs:86-90 | Decoding the 45 bytes of a record gives the record back: every id, address, code, timestamp and liveness survives the big-endian layout. |
| `PresenceCodec.RecordLayout` | fn0/src/warm_up_map.rs:135-140 | Every byte of a record is a base-256 digit of its field: node id in bytes 0 to 15, address in 16 to 19, code in 20 to 35, timestamp in 36 to 43, each most significant first, and liveness in 44. |
| `PresenceCodec.EncodeDecode` | fn0/src/warm_up_map.rs:135-140 | Any 45 bytes decode; encoding the result reproduces them if and only if the liveness byte is 0 or 1, because the reader maps every other byte to dead. |
| `PresenceCodec.RecordsEncodeAll` | fn0/src/warm_up_map.rs:164-172 | A message of encoded records is read back as exactly those records, in order. |
| `PresenceCodec.RecordsBeforeFragment` | fn0/src/warm_up_map.rs:85-90 | A fragment behind encoded records adds no record. |
| `PresenceTable.TableRecordsExact` | fn0/src/warm_up_map.rs:164-172 | Iterating the nested ordered maps lists each stored presence once, strictly ascending by (code id, address), and lists nothing else. |
| `PresenceTable.TableRecordsInverse` | fn0/src/warm_up_map.rs:131-154 | A table without empty sets is determined by that list. |
| `PresenceTable.AscendingUnique` | fn0/src/warm_up_map.rs:40-44 | The order by code id and address leaves one way only to list a set of records. |
| `WarmUpMap.DeliverAt` | fn0/src/warm_up_map.rs:85-116 | What a whole message does to a key's stored entry and queued event depends only on that key's entry and on that key's records, in their order. |
| `WarmUpMap.SettleClosedForm` | fn0/src/warm_up_map.rs:101-115 | A key ends with the first greatest-timestamp record of its last run of equal liveness; the prior entry survives exactly when the message has only that run for the key and the prior entry has that liveness and is at least as new. |
| `WarmUpMap.Replay` | fn0/src/warm_up_map.rs:82-116 | Delivering a whole message a second time changes neither the map nor the event queue, from any state, for any records. |
| `WarmUpMap.CommuteExactly` | fn0/src/warm_up_map.rs:101-115 | Two messages leave the same entry for a key in either order if and only if one has no record for it, or their winners are equal, or the winners agree on liveness and: a message that changes its mind about liveness is at least as new as the other, which does not; or neither does, and the timestamps differ or the stored entry is of that liveness and at least as new. So messages that end on different liveness never commute. |
| `WarmUpMap.MessagesCommuteExactly` | fn0/src/warm_up_map.rs:82-116 | Two whole messages leave the same map in either order if and only if that holds for every key. |
| `StateTransfer.MergeAt` | fn0/src/warm_up_map.rs:160-179 | Through the wire format, merging a node's state reconciles every key with that node's entry for it and touches no other key. |
| `StateTransfer.TransferToEmpty` | fn0/src/warm_up_map.rs:160-179 | An empty node that merges a state holds exactly that state's entries, and has queued exactly those; without empty sets, map and queue are equal to the source map. |
| `StateTransfer.OwnStateChangesNothing` | fn0/src/warm_up_map.rs:160-179 | Merging a node's own state changes neither its map nor its queue. |
| `StateTransfer.PushPullAgreement` | fn0/src/warm_up_map.rs:101-115 | After A merges B's state and B merges A's new state, both hold the same keys with the same liveness and timestamp, and the same presence unless both already agreed on the key. |
| `StateTransfer.AgreementIsStable` | fn0/src/warm_up_map.rs:101-115 | Between nodes that agree, a further push changes neither the map nor the queue of the receiver. |
| `StateTransfer.CrossedAt` | fn0/src/warm_up_map.rs:102-107 | When each node merges the state the other had before the exchange, a key ends with equal liveness and timestamp if and only if its entries did not differ in liveness; if they did, the two entries are swapped. |
| `StateTransfer.CrossedExchange` | fn0/src/warm_up_map.rs:102-107 | After such an exchange the nodes agree on all keys if and only if no key both held differed in liveness. |
| `StateTransfer.CrossedForEver` | fn0/src/warm_up_map.rs:102-107 | However often a crossed exchange is repeated, a key whose entries differ in liveness only changes sides. |
| `StateTransfer.CrossedExchangeSwaps` | fn0/src/warm_up_map.rs:102-107 | For any two presences that differ in liveness there are two nodes whose crossed exchange only swaps them. |
| `Rebroadcast.SentCount` | fn0/src/warm_up_map.rs:131-154 | The number of records sent is the longest prefix whose framed sizes stay within the limit: the next record, if there is one, would exceed it. |
| `Rebroadcast.SentCountUnique` | fn0/src/warm_up_map.rs:145-148 | That prefix is the only one within the limit whose next record does not fit. |
| `BroadcastRuns.BroadcastTakesPrefix` | fn0/src/warm_up_map.rs:127-157 | After any run, one broadcast takes exactly the fitting prefix off the node's queue in (code id, address) order, emits it, and leaves the map alone. |
| `BroadcastRuns.BroadcastsFollow` | fn0/src/warm_up_map.rs:127-157 | After any run followed by broadcasts with any limits, the node has emitted exactly the records the limits let through in turn, and its queue is exactly the rest. |
| `BroadcastRuns.BroadcastsConserve` | fn0/src/warm_up_map.rs:127-157 | Over any such series, what the node has emitted followed by what it has queued stays the same list: nothing lost, repeated or reordered. |
| `BroadcastRuns.BroadcastsDrain` | fn0/src/warm_up_map.rs:131-154 | After any run, as many broadcasts under one limit as there are queued events empty the node's queue if and only if every queued event fits the limit alone. |
| `BroadcastRuns.OversizedEventStays` | fn0/src/warm_up_map.rs:145-148 | After any run, a queued event larger than every limit stays queued, and so does every event behind it, whatever the number of broadcasts. |
| `WarmUpRuns.StepKeepsInv` | fn0/src/warm_up_map.rs:50-180 | Every message, merge, broadcast, join and leave keeps the invariant of the next row. |
| `WarmUpRuns.EveryRunKeepsInv` | fn0/src/warm_up_map.rs:50-180 | In every reachable state no queued set is empty, a queued event whose key is stored equals the stored presence, every stored presence is still queued or has been sent unchanged, and nothing stored, queued or sent was invented. |
| `WarmUpRuns.StepKeepsCoherent` | fn0/src/warm_up_map.rs:50-180 | The part of that invariant that needs no history is kept by each step from any state that has it. |
| `WarmUpMapNode.WarmUpMapNode.constructor` | fn0/src/warm_up_map.rs:17-20 | A new node is empty and satisfies the invariant. |
| `WarmUpMapNode.WarmUpMapNode.Merge` | fn0/src/warm_up_map.rs:92-115 | Updating the two nested maps in place has the effect of the merge rule on one record. |
| `WarmUpMapNode.WarmUpMapNode.NotifyMessage` | fn0/src/warm_up_map.rs:70-117 | The read loop delivers the message's records in order, keeps the invariant and is the message step of a run; a trailing fragment makes the reader panic, exactly when the length is not a multiple of 45, after the records before it were merged. |
| `WarmUpMapNode.WarmUpMapNode.MergeRemoteState` | fn0/src/warm_up_map.rs:177-179 | Merging a remote state is receiving it as a message, and is the merge step of a run. |
| `WarmUpMapNode.WarmUpMapNode.NotifyJoin` | fn0/src/warm_up_map.rs:50-57 | For every code and address, a presence is stored afterwards if and only if it was before and is not at the joining address under another id; the codes and the queue stay. |
| `WarmUpMapNode.WarmUpMapNode.NotifyLeave` | fn0/src/warm_up_map.rs:60-66 | For every code and address, a presence is stored afterwards if and only if it was before and has another id than the leaving one; the codes and the queue stay. |
| `WarmUpMapNode.WarmUpMapNode.LocalStateBytes` | fn0/src/warm_up_map.rs:160-175 | The buffer filled by the nested iteration is the encoding of the whole map in (code id, address) order. |
| `WarmUpMapNode.SendSet` | fn0/src/warm_up_map.rs:134-152 | The inner loop emits events of one code in address order, never beyond the limit; if it stops early the next event would not fit. |
| `WarmUpMapNode.WarmUpMapNode.BroadcastMessages` | fn0/src/warm_up_map.rs:119-158 | One frame is sent for each record of exactly the fitting prefix of the queue, and it is the transport's framing of that record's bytes; the queue left is exactly the rest, the map is untouched and the invariant holds. |
| `LruStore.KeepIsLongestFittingPrefix` | adapt-cache/src/fs.rs:120-127 | Truncation keeps a prefix within the size, and no longer prefix would fit. |
| `LruStore.KeepUnique` | adapt-cache/src/fs.rs:120-127 | A prefix that fits and whose next entry does not is the one that is kept. |
| `LruStore.PutKeepsBound` | adapt-cache/src/fs.rs:111-128 | After a put, keys are unique and the bytes are within the cache size, even if the deque was over it before. |
| `LruStore.TouchKeepsBound` | adapt-cache/src/fs.rs:38-44 | A lookup keeps keys unique and the bytes within the size. |
| `LruStore.Store.TryHit` | adapt-cache/src/fs.rs:38-44 | The entry found is returned and moved to the front; the others keep their order; a miss changes nothing. |
| `LruStore.Store.PutToCache` | adapt-cache/src/s3.rs:126-143 | The deque becomes the longest fitting prefix of the new entry followed by the others in recency order. |
| `LruStore.Store.Truncate` | adapt-cache/src/fs.rs:120-127 | Adding up bytes from the front and draining at the first excess leaves that prefix. |
| `FsCache.FsAdaptCache.GetImpl` | adapt-cache/src/fs.rs:76-109 | An undisturbed get: a cached value is served exactly when the stamp is unchanged, otherwise the file is read, converted and stored; each failure keeps the cache as the lookup left it. |
| `FsCache.AnswersExactly` | adapt-cache/src/fs.rs:86-107 | Which answer each case gives: not found for a missing file and for nothing else, the cached value while time and size are unchanged, storage and conversion errors, or the conversion of what was read. |
| `FsCache.StoresExactly` | adapt-cache/src/fs.rs:60-71 | Only a successful fetch stores, with the stamp fetched; on a hit or a failure only the lookup shows. |
| `FsCache.FsAdaptCache.FetchAndCache` | adapt-cache/src/fs.rs:55-74 | Only a read and a conversion that both succeed are stored, with the stamp read before the content. |
| `LruInclusion.RunIsBounded` | adapt-cache/src/fs.rs:38-128 | After any run of gets, failed ones included, keys are unique and the bytes are within the size. |
| `LruInclusion.Inclusion` | adapt-cache/src/fs.rs:38-128 | For two sizes and the same run of successful gets, the smaller cache's deque is a prefix of the larger one's. |
| `LruInclusion.HitsAreIncluded` | adapt-cache/src/fs.rs:76-109 | After any such run, every hit in the smaller cache is a hit in the larger one. |
| `LruInclusion.FailedKeepsPrefix` | adapt-cache/src/fs.rs:81-107 | For deques of which one is a prefix of the other, one failed get, which has already moved its entry, keeps that relation if and only if the smaller holds the key, the larger does not, or the smaller is empty. |
| `LruInclusion.InclusionExactly` | adapt-cache/src/fs.rs:38-128 | Over every run of gets, successful or failed for whatever reason, the smaller cache's deque is a prefix of the larger one's at every point if and only if each failed get, when it comes, meets that condition. |
| `LruInclusion.FailedGetInvertsSizes` | adapt-cache/src/fs.rs:81-107 | Inclusion is false with failed gets: after one, a cache of 10 bytes hits where a cache of 11 bytes misses. |
| `FsFreshness.RunKeepsInv` | adapt-cache/src/fs.rs:46-109 | In every interleaving of gets and writers whatsoever, each cached or held entry carries a stamp its file had at some point and converts what the file held at that point or later, and each cached one fits the cache. |
| `FsFreshness.UndisturbedCallIsAtomic` | adapt-cache/src/fs.rs:76-109 | Started and advanced without interruption, the five steps of a call answer and leave the cache exactly as one atomic get does. |
| `FsFreshness.StampsExactly` | adapt-cache/src/fs.rs:88-96 | Two states of a file have the same stamp if and only if modification time and length are equal. |
| `FsFreshness.EveryGetIsFresh` | adapt-cache/src/fs.rs:46-109 | In every interleaving of gets with an honest history of the files, each successful get returns the conversion of a content the file had at some instant of that very call, even if the file changed between metadata and read. Honest: whenever a path's stamp returns, a conversion of what it held in between, if it fits the cache, is still a conversion of what it holds. |
| `FsHistories.FreshExactly` | adapt-cache/src/fs.rs:46-109 | For any history of writes and deletions, every get is fresh in every interleaving with it or a beginning of it if and only if the history is honest. |
| `FsHistories.DishonestIsStale` | adapt-cache/src/fs.rs:93-98 | For any point at which a history is not honest there is an interleaving with the history up to that point in which a get returns a value that was current at no instant of the call. |
| `FsHistories.DisciplinedIsHonest` | adapt-cache/src/fs.rs:93-98 | Writers that never bring back a stamp make an honest history. |
| `FsHistories.RisingTimesAreFresh` | adapt-cache/src/fs.rs:46-109 | With strictly rising modification times per path, every get is fresh in every interleaving. |
| `FsHistories.ReusedStampIsStale` | adapt-cache/src/fs.rs:93-98 | For any two contents of equal length and different conversions, a write that keeps the modification time misleads some get. |
| `FsHistories.RestoredFileIsStale` | adapt-cache/src/fs.rs:46-53 | So does a file that is changed and then restored together with its stamp, even when each stamp stands for one content: the old stamp can be stored with the content in between. |
| `S3Cache.S3AdaptCache.GetImpl` | adapt-cache/src/s3.rs:90-124 | One conditional get: the cached ETag is sent, a delivered object is converted and stored, 304 answers the cached value, the other errors keep the cache. |
| `S3Cache.AnswersExactly` | adapt-cache/src/s3.rs:99-124 | Which answer each response gives: not found for a missing key and for nothing else, the cached value on 304, a panic exactly on 304 without one, storage and conversion errors, or the conversion of what was delivered. |
| `S3Cache.StoresExactly` | adapt-cache/src/s3.rs:73-87 | Only a delivered object that converts is stored, with its ETag; otherwise only the lookup shows. |
| `S3Cache.UndisturbedCallIsAtomic` | adapt-cache/src/s3.rs:90-124 | Started, answered and finished without interruption, the steps of a call answer and leave the cache exactly as one atomic get does. |
| `S3Cache.RunKeepsInv` | adapt-cache/src/s3.rs:39-124 | When matching ETags, weak or not, stand for one content, every cached or held entry is the conversion of the content its ETag stands for, in every run. |
| `S3Cache.NeverPanics` | adapt-cache/src/s3.rs:106-113 | Against any server obeying sections 13.1.2 and 15.4.5 of RFC 9110, which compares ETags weakly, in every run, the unwrap on 304 never fails. |
| `S3Cache.ReplyIsCurrent` | adapt-cache/src/s3.rs:99-112 | The reply leaves the call with the conversion of the object as it is at that instant, or with an error. |
| `S3Cache.EveryGetIsCurrent` | adapt-cache/src/s3.rs:39-124 | In every run against such a server, with matching ETags for one content only, whatever a call returns or is about to store was the conversion of the object's content at an instant of that call. |
| `JsonText.LowControls` | forte-json/src/lib.rs:61-70 | For bytes 0 to 7 the table slice at six times the byte is that byte's escape. |
| `JsonText.VerticalTab` | forte-json/src/lib.rs:61-70 | For 0x0b the slice is an escaped carriage return followed by half of another escape. |
| `JsonText.HighControls` | forte-json/src/lib.rs:61-70 | From 0x0e to 0x1c the slice is given byte for byte: the last two digits of one entry and the first four bytes of the next. |
| `JsonText.EscapesExactly` | forte-json/src/lib.rs:52-72 | The text of each byte, literally: eight short escapes, the slash among them, six bytes below eight, and the byte itself from 0x20 on. |
| `JsonRoundTrip.CharRoundTrip` | forte-json/src/lib.rs:52-72 | The text written for any byte outside 0x0b and 0x0e to 0x1f is one JSON character that reads back as that byte. |
| `JsonRoundTrip.CharMisprinted` | forte-json/src/lib.rs:61-70 | The text written for 0x0b or 0x0e to 0x1c reads back as a different byte. |
| `JsonRoundTrip.CharsRoundTrip` | forte-json/src/lib.rs:46-88 | An escaped string followed by its closing quotation mark reads back as the string, with exactly the rest left, if and only if it holds none of the misprinted bytes. |
| `JsonRoundTrip.NumberRoundTrip` | forte-json/src/lib.rs:784-822 | The decimal text of any integer reads back as that integer. |
| `JsonRoundTrip.ValueRoundTrip` | forte-json/src/lib.rs:140-465 | In any context that can follow a value, the printed tree reads back as the tree, with exactly the rest left, if and only if all its strings and names are clean. |
| `JsonRoundTrip.RoundTrip` | forte-json/src/lib.rs:46-465 | Parsing the whole text by RFC 8259 gives the same tree and consumes it all, if and only if no string or name holds 0x0b or 0x0e to 0x1f. |
| `JsonReading.ReadExactly` | forte-json/src/lib.rs:767-991 | A reader that knows only the type of a value, and no content, reads a tree as that value if and only if it is the tree the writer makes of it: every bool, integer, string, element, key by its kind, variant and payload. |
| `JsonReading.KeyReadExactly` | forte-json/src/lib.rs:603-720 | The same for the text of a map key of each kind. |
| `JsonCompact.PrintIsCompact` | forte-json/src/lib.rs:140-465 | The text of a clean tree holds no white space outside strings. |
| `JsonValues.TaggedText` | forte-json/src/lib.rs:872-908 | The pieces written for an enum value are the text of an object with its variant under `t` and its payload under `v`. |
| `JsonSerializer.ChunkingUnique` | forte-json/src/lib.rs:32-44 | The text alone determines the chunks: full ones, then one that is not empty. |
| `JsonSerializer.EscapeFor` | forte-json/src/lib.rs:52-72 | The choice made for a byte is verbatim, an escape or an out-of-range slice, the last exactly for 0x1d to 0x1f. |
| `JsonSerializer.Serializer.constructor` | forte-json/src/lib.rs:25-30 | A new serializer has written nothing. |
| `JsonSerializer.Serializer.WriteBytes` | forte-json/src/lib.rs:32-44 | The write loop terminates, appends the bytes and keeps every completed chunk at exactly 8192 bytes. |
| `JsonSerializer.Serializer.WriteStringValue` | forte-json/src/lib.rs:46-88 | The run-based loop writes exactly the byte-by-byte escaped text in quotation marks; it panics if and only if the string holds 0x1d, 0x1e or 0x1f. |
| `JsonSerializer.Serializer.Separate` | forte-json/src/lib.rs:148-170 | The compound's state writes a comma before every element but the first. |
| `JsonSerializer.Serializer.SerializeItems` | forte-json/src/lib.rs:140-315 | Elements of any sequence, tuple or tuple variant come out separated and closed as the printed array. |
| `JsonSerializer.Serializer.SerializeFields` | forte-json/src/lib.rs:317-465 | Fields of any map, struct or struct variant come out separated and closed as the printed object. |
| `JsonSerializer.Serializer.SerializeField` | forte-json/src/lib.rs:396-408 | A key, quoted, a colon and the value form the printed member. |
| `JsonSerializer.Serializer.SerializeByteString` | forte-json/src/lib.rs:844-851 | Raw bytes come out as an array of numbers. |
| `JsonSerializer.Serializer.SerializeVariant` | forte-json/src/lib.rs:872-991 | Each of the four kinds of enum value comes out as its tagged object. |
| `JsonSerializer.Serializer.Serialize` | forte-json/src/lib.rs:767-991 | For every value the text appended is the print of its tree; it panics if and only if some string or name in the tree holds 0x1d, 0x1e or 0x1f. |
| `JsonSerializer.Serializer.IntoStream` | forte-json/src/lib.rs:94-99 | The chunks concatenate to everything written; all but the last are full and the last is not empty. |
| `JsonStream.ToStream` | forte-json/src/lib.rs:5-9 | End to end: the chunks concatenate to the printed tree, of 8192 bytes each but the last, which has at least one; the call succeeds with a text from which RFC 8259 and the type of the value give back the value itself if and only if no string holds 0x0b or 0x0e to 0x1f, and then without white space outside strings. |
| `TypeNames.ReferenceInjective` | forte-rs-to-ts/src/name_resolution.rs:10-18 | References of dot-free names tell the names apart. |
| `TypeNames.ReferenceExactly` | forte-rs-to-ts/src/name_resolution.rs:10-18 | A reference is the type name alone, or the namespace joined with dots, a dot and the type name. |
| `TypeNames.JoinComponents` | forte-rs-to-ts/src/name_resolution.rs:21 | Joining the components of a path with `::` gives the path back. |
| `TypeNames.ComponentsAreWhole` | forte-rs-to-ts/src/name_resolution.rs:21 | No component holds a separator. |
| `TypeNames.ComponentsOfJoined` | forte-rs-to-ts/src/name_resolution.rs:21 | A path joined from components without colons has exactly those components. |
| `TypeNames.StripsToRest` | forte-rs-to-ts/src/name_resolution.rs:23-28 | What follows the first `pages` and the page's own component is kept, when there is anything. |
| `TypeNames.StripsToLast` | forte-rs-to-ts/src/name_resolution.rs:30 | Otherwise only the last component is kept. |
| `TypeNames.PagesClash` | forte-rs-to-ts/src/name_resolution.rs:23-28 | Types of the same name in any two pages have different full paths that strip to the same path. |
| `TypeNames.StrippedIsDotFree` | forte-rs-to-ts/src/name_resolution.rs:20-31 | Stripping the route prefix of a path without dots gives components without dots. |
| `TypeNames.SameReference` | forte-rs-to-ts/src/name_resolution.rs:53-65 | At a given namespace length, dot-free paths share a reference if and only if their shortened names are equal. |
| `NameResolution.TryDepth` | forte-rs-to-ts/src/name_resolution.rs:46-76 | One round reports a collision exactly when two references at this length are equal, for dot-free components exactly when two paths have the same type name and the same last components; otherwise it yields, in order, every path cut to the last so many components of its namespace. |
| `NameResolution.FindShortestUniqueNamespaces` | forte-rs-to-ts/src/name_resolution.rs:33-103 | The search terminates and cuts every path to the end of its namespace of one common length, or all of it where it is shorter: none for a single path; else, for dot-free components, the least length from 1 on whose ends tell the paths apart, or one that covers them all. |
| `NameResolution.GroupReferencesExact` | forte-rs-to-ts/src/name_resolution.rs:33-103 | Within a group two definitions share a reference if and only if their stripped paths are equal. |
| `NameResolution.GroupDepthIsLeast` | forte-rs-to-ts/src/name_resolution.rs:43-101 | Without duplicates the ends of the chosen length tell the group apart, by name and by reference, and no shorter ones do. |
| `TypeRenaming.GroupByTypeName` | forte-rs-to-ts/src/name_resolution.rs:106-116 | The groups are exactly the definitions of each final component, in order. |
| `TypeRenaming.GroupCounts` | forte-rs-to-ts/src/name_resolution.rs:108-116 | Each definition is in the group of its last component as often as it was given. |
| `TypeRenaming.ResolveTypeNames` | forte-rs-to-ts/src/name_resolution.rs:105-130 | In whatever order the groups are visited, exactly the given full paths are mapped; with dot-free components each to the shortest end of its own stripped path that tells the definitions of its type name apart. |
| `TypeRenaming.ReferencesExact` | forte-rs-to-ts/src/name_resolution.rs:105-130 | Over all definitions, across groups, two get the same reference if and only if their stripped paths are equal. |
| `TypeRenaming.RouteReferencesExact` | forte-rs-to-ts/src/name_resolution.rs:20-130 | The same for definitions whose paths have no dot, with the real stripping of route prefixes. |
| `TypeRenaming.ApplyRenames` | forte-rs-to-ts/src/name_resolution.rs:132-162 | Rewriting any nested type keeps its shape and renames its references one by one, in order. |
| `TypeRenaming.RenameDefinitions` | forte-rs-to-ts/src/analyzer.rs:267-278 | Every definition takes its resolved name, and every definition's type is the rewritten one. |
| `TypeRenaming.RenamingPreservesMeaning` | forte-rs-to-ts/src/name_resolution.rs:132-137 | Every mapped reference finds, among the renamed definitions, exactly the definitions of its original full path, if and only if distinct full paths strip to distinct paths. |
| `TypeRenaming.CapturedExactly` | forte-rs-to-ts/src/name_resolution.rs:33-103 | Known before any resolution: a text without dots becomes the reference of some definition if and only if a definition strips to that bare name or exactly one definition has it as its last component. |
| `TypeRenaming.TreeKeepsMeaning` | forte-rs-to-ts/src/name_resolution.rs:132-162 | Any type tree keeps its shape, and each reference in it, at each position, finds exactly the definitions it stood for if and only if: mapped, no other full path strips to the same path; unmapped and so left as it is, no definition captures its text in that sense. |
| `RouteRenaming.RenameRouteDefinitions` | forte-rs-to-ts/src/analyzer.rs:267-278 | End to end, on the names and types actually written: every definition keeps its path and shape, and each reference in its type finds, among the renamed definitions, exactly the definitions it stood for, if and only if that condition holds. |
| `RouteRenaming.SameNameInTwoPages` | forte-rs-to-ts/src/name_resolution.rs:23-28 | For any two pages and any type name there are two definitions of which one refers to the other by a reference that no longer tells them apart. |
| `RouteRenaming.UnmappedIsSafe` | forte-rs-to-ts/src/name_resolution.rs:135-137 | A reference to something that is no definition is safe if and only if no definition captures it. |
| `RouteRenaming.PathsAreNotCaptured` | forte-rs-to-ts/src/name_resolution.rs:20-31 | A reference that is a path of several components is never captured. |
| `RouteRenaming.SoleDefinitionCaptures` | forte-rs-to-ts/src/name_resolution.rs:34-41 | The only definition of a name, at whatever depth, captures the bare name. |
| `RouteRenaming.BareNameIsCaptured` | forte-rs-to-ts/src/name_resolution.rs:135-137 | For any page and type name there is a definition that strips to the bare name, and an unmapped reference that it captures. |
| `RouteRenaming.NestedNameIsCaptured` | forte-rs-to-ts/src/name_resolution.rs:34-41 | For any page, inner module and type name there is a definition that strips to a longer path and still captures the bare name. |
| `CpuTime.StepKeepsInv` | measure-cpu-time/src/lib.rs:44-94 | Every atomic step of the poller, of a reader or of the clock keeps the invariant, and neither the busy nor the measured time ever goes down. |
| `CpuTime.RunKeepsInv` | measure-cpu-time/src/lib.rs:44-94 | So over every interleaving the invariant holds, and the busy and the measured time only grow. |
| `CpuTime.TotalsAreTicks` | measure-cpu-time/src/lib.rs:44-62 | The busy and the measured time kept with a state are the ticks of the run that passed from each poll's start to its clearing, and to its end. |
| `CpuTime.NoOverCount` | fn0/src/execute.rs:221-232 | In every interleaving of one polling thread with any number of readers, no duration returned exceeds the ticks that passed between a poll's first reading of the clock and the clearing of its start; so the cut-off at 1000 ms never fires early. |
| `CpuTime.UndisturbedRead` | measure-cpu-time/src/lib.rs:85-94 | A read at any instant is at most those ticks, equals the ticks measured so far between polls and while the future runs, and falls short of them exactly while a poll that has taken time is not yet announced, or is cleared and not yet added. |
| `CpuTime.CallIsAccurate` | fn0/src/execute.rs:221-232 | A call made between polls or inside the future, while the polling thread does not move on, returns at least the ticks measured when it begins and at most those measured when it ends, whatever the clock and the other readers do during its steps. |
| `CpuTime.MonotoneOnPollingThread` | measure-cpu-time/src/lib.rs:85-94 | Of two such calls, with anything in between, the later one never returns less. |
| `CpuTime.ExactBetweenPolls` | measure-cpu-time/src/lib.rs:85-94 | A call that begins and ends between the same two polls returns exactly the ticks measured, whatever other readers do. |
| `CpuTime.WholeReadReturnsDuration` | measure-cpu-time/src/lib.rs:85-94 | A call that is not interleaved returns the duration of the state it started in and leaves the tracker as it was. |
| `CpuTime.ConcurrentReadsCanGoBack` | measure-cpu-time/src/lib.rs:54-62 | On another thread the duration can go back: for every length of the first poll, a run in which a read returns that length and a later one, before the length is added, returns zero. |
| `CpuTime.DelayIsTakenBack` | measure-cpu-time/src/lib.rs:54-62 | It can also go back for good: for every length and delay, a run in which a read between the end of a poll and its clearing returns both together, and an exact read between polls later returns the length alone. |
| `CpuTime.SomeCallReturnsAcc` | measure-cpu-time/src/lib.rs:85-94 | From every reachable state some later call returns exactly what finished polls have added up so far. |
| `CpuTime.UndercutExactly` | measure-cpu-time/src/lib.rs:44-94 | In every reachable state, no call made later, on any thread and in any interleaving, returns less than a given duration if and only if that duration is within what finished polls have added up so far. |
| `SlotSearch.ProbeStep` | wasmtime/examples/mpk.rs:163-178 | From any phase of the search each probe leads to the next phase and counts one; only a success at the largest 32-bit value overflows. |
| `SlotSearch.GapIsPowerOfTwo` | wasmtime/examples/mpk.rs:152-182 | After any number of probes, whatever they answer, `next - last` is zero or a power of two. |
| `SlotSearch.ExponentialSearch.constructor` | wasmtime/examples/mpk.rs:153-159 | The search starts growing, with nothing known to succeed and one to try next. |
| `SlotSearch.ExponentialSearch.RecordProbe` | wasmtime/examples/mpk.rs:163-178 | Updating the three fields in place has the effect of one recorded probe; it panics exactly when the next value does not fit 32 bits. |
| `SlotSearch.ProbeEngineSize` | wasmtime/examples/mpk.rs:93-113 | For any oracle the search ends with a success, or zero, that the next larger size does not share, and the bytes of the probe there, after exactly 2 * floor(log2(M + 1)) + 1 probes, one more if M is even and positive, none above 2M + 1. For a monotone oracle M is the largest success, and the search panics if and only if the largest 32-bit value succeeds. |
| `PathSegments.SegmentsOfPath` | forte-old/src/codegen/backend.rs:411-417 | A path joined from segments has exactly those segments. |
| `PathSegments.UnsplitSplit` | forte-old/src/codegen/backend.rs:414 | Joining the pieces of a split path gives the path back. |
| `PathSegments.LeadingSlashesDoNotCount` | forte-old/src/codegen/backend.rs:412-415 | The segments of a path are its pieces between slashes that are not empty, whether or not leading slashes are trimmed first. |
| `PathSegments.NonEmptyAppend` | forte-old/src/codegen/backend.rs:415 | Empty pieces are dropped wherever they are, and no other. |
| `Routes.ExtractRouteParams` | forte-old/src/codegen/backend.rs:807-818 | The loop lists, in order, the inner part of each directory of more than two characters that starts and ends with an underscore, and nothing else. |
| `Routes.ConvertToUrlPath` | forte-old/src/codegen/backend.rs:848-884 | The pattern read from the URL has one segment, in order, for each directory that is not empty, not `index` and not in parentheses: a parameter for `_name_` and for what starts with a colon, and the directory's own text otherwise. The URL starts with a slash, ends with one only when it is the root, and is the root exactly when nothing shows. |
| `Routes.LiteralAndParam` | forte-old/src/codegen/backend.rs:846-848 | A literal directory followed by `_name_` gives a slash, the literal, a slash, a colon and the name. |
| `Routes.PatternOfRoute` | forte-old/src/codegen/backend.rs:411-427 | Compiling the URL of a route gives one pattern segment per visible route segment. |
| `Routes.PatternExactly` | forte-old/src/codegen/backend.rs:411-427 | The compiled pattern corresponds to the route's directories in the same way. |
| `Routes.RouteServesExactly` | forte-old/src/codegen/backend.rs:429-461 | A route matches exactly the paths that repeat its literal directories in place, with any values where it has parameters. |
| `Routes.CompiledParams` | forte-old/src/codegen/backend.rs:411-427 | The pattern has exactly the parameters of `extract_route_params`, in order, if and only if no route segment starts with a colon. |
| `Routes.ColonSegmentIsUnknown` | forte-old/src/codegen/backend.rs:418-423 | For any name there is a route whose pattern has that parameter while the wrapper generator finds none. |
| `Routes.Matches` | forte-old/src/codegen/backend.rs:429-461 | The zip loop returns a binding exactly when the lengths agree and every static segment is equal; a repeated name keeps the last part. |
| `Routes.BindExact` | forte-old/src/codegen/backend.rs:447-460 | A match binds exactly the pattern's names, each to the part at its last occurrence. |
| `Routes.MatchIsInverseOfSubstitute` | forte-old/src/codegen/backend.rs:429-461 | With distinct names, a match returns a binding if and only if it binds exactly the names and substituting it yields the path's segments. |
| `Routes.RepeatedNameLosesASegment` | forte-old/src/codegen/backend.rs:455-457 | With a repeated name there is a path that matches although no binding substitutes to it. |
| `Routes.RepeatedParam` | forte-old/src/codegen/backend.rs:455-457 | For any name there is a route that repeats it, and a path the route matches although no binding substitutes to it. |
| `Routes.InverseExactly` | forte-old/src/codegen/backend.rs:411-461 | For any route, matching is the inverse of substitution on all paths if and only if the compiled pattern repeats no parameter. |
| `Routes.RouteMatchesExactly` | forte-old/src/codegen/backend.rs:411-461 | For a route without colon segments and without repeated parameter names, a match returns a binding if and only if it binds exactly the route's parameters and substituting it yields the path's segments. |
| `Routes.EveryLookupIsBound` | forte-old/src/codegen/backend.rs:411-461 | Whatever path a route matches, every parameter the generated wrapper looks up is bound. |
| `Routes.BuildThenMatch` | forte-old/src/codegen/backend.rs:411-461 | Building a path from parameter values and matching it against the route gives the values back. |
| `Routes.Handle` | forte-old/src/codegen/backend.rs:479-506 | The route served is the first registered one whose method and pattern match; 404 exactly when none does. |

## Left out

- Memberlist transport, locks and task scheduling: each delegate callback of the gossip map, and each step of a cache call, is atomic.
- `broadcast_messages` adds sizes in `usize`; the model's sizes are unbounded.
- Ordered sets of presences are maps from address to presence, because presences compare by address alone.
- `async_singleflight`: a get that joins another call's flight gets that call's answer, which may be older than its own start; each modelled call runs on its own.
- File reads are atomic: a read that overlaps a write and returns parts of both contents is not modelled.
- A response of the object store without an ETag, which panics, and the key prefix of the adapter.
- Floating-point numbers in the JSON writer, whose text comes from a library; map keys that are options with a value, newtype structs, floats or raw bytes, which are not quoted or not exact.
- Integer widths in the JSON writer: the source serializes integers of 8 to 64 bits, the model any integer.
- JsonParser.Parse: numbers are the integers of section 6 of RFC 8259; fractions and exponents are not read, and the writer never produces them for the modelled values.
- Two map entries with the same key text: the tree keeps both members, as the text does.
- CpuTime: atomic operations are sequentially consistent steps and nanoseconds do not wrap; relaxed ordering of the accumulator is not modelled. The tracker is a state machine on values, because its object is shared by threads.
- SlotSearch.ProbeEngineSize: an overflow of the 32-bit arithmetic panics, as in builds with overflow checks; without them the value would wrap.
- TypeRenaming.ApplyRenames: the in-place rewriting of a type tree is a function on values, so updating in place is not captured.
- TypeRenaming.ReferencesExact, RouteRenaming.RenameRouteDefinitions: components are dot-free, as those of Rust paths are; stripped paths are never empty, and are kept as a namespace and a last component.
- TypeRenaming.CapturedExactly: for a reference text that holds a dot, which no Rust path does, the condition is on the resolved names.
- The analyzer applies the renaming to definitions and not to the type of the properties themselves; that step, the conversion from compiler types and the TypeScript printer are not modelled.
- `route_path_to_handler_name`, `get_path_struct_name` and the other generated text: string replacements without a law of their own.
- The deployment log cache of hq: an append-only copy of a database log with suffix reads.
- Engine setup, request handling, health checks, scaling, command-line generators and telemetry: configuration and plumbing.
