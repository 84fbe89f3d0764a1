# Verified model of code-local

code-local mounts a remote code-server directory on the local machine. This project models its four
hardest parts in Dafny 4.11 and proves properties of the model.

| part | modules | main results |
|---|---|---|
| Wire format | `Words`, `Vql`, `Serialize`, `Frames` | the writers and readers are inverse, exactly on the domain where lengths fit; readers are total; the frame loop decodes the longest well-formed prefix |
| Connection and IPC | `Conn`, `Ipc`, `EndToEnd` | over every interleaving: in-order lossless delivery, shutdown that is safe and that only a write to the socket can hold up, responses and events reach exactly their calls and listeners, with what the server sent, and what is written is what was asked to be sent |
| Metadata caches | `Paths`, `Tree`, `Cache`, `Coherence`, `CachedFS`, `Staleness`, `NfsFileSystem` | invalidation covers exactly what a tree operation changes; what was read is answered again from the cache; cached and uncached reads agree when nothing is due; staleness is bounded through two layers, and the bound is attained |
| Open files | `FileSpec`, `Files`, `Paging` | lazily loaded, in-place edited files behave as byte sequences, last writer wins, one write-back; directory pages add up to the listing |

How the model follows the source:

- Objects whose methods update fields are classes (`Vql.Writer`, `Vql.Reader`, `Conn.Connection`,
  `Ipc.IpcClient`, `Cache.Cache`, `CachedFS.CachedFS`, `NfsFileSystem.FileSystem`, `Files.Buffer`,
  `Files.NfsFile`, `Files.WebdavFile`, `Paging.Directory`). Their methods are proved against functions
  on values, and the theorems are about those functions.
- Concurrency is a step relation whose steps are the source's atomic actions: critical sections,
  atomic counters, channel operations. `Runs` and `After` take any finite sequence of enabled steps,
  so the theorems hold over all interleavings. The class methods perform the same functions on the
  shared fields that the steps are made of.
- What the remote answers, the clock, map iteration order, the choice of a `select`, success of a
  socket write and the JSON library are parameters. Of JSON, the round trip assumes nothing beyond
  that a value written can be read back; what it reads back as is part of the statement.
- Machine integers are unbounded with explicit wrap-around where the source is 32 bits wide. A shift
  followed by a bitwise or of disjoint bits is written as a product and a sum.
- The remote tree's operations in `Tree` are the environment's, not the source's: code-server is not
  part of this model. A directory's stat has no size or time, because the source never invalidates a
  parent's stat (`Tree.InvalidatePathExactly` says so).

Where a property holds only on part of the inputs, the statement is an equivalence:

- round trip of values without JSON parts: exactly when every length fits 32 bits (`Serialize.RoundTripExactly`);
- a value comes back unchanged: exactly when it is native to the format (`Serialize.IdentityExactly`);
- round trip of frames: exactly for payloads of at most 2^32 - 14 bytes (`Frames.RoundTripExactly`), and the
  decoder's slice bounds fail exactly on a declared length above that (`Frames.FaultsExactly`);
- a response finds its request: exactly when the id fits 32 bits (`EndToEnd.AnswerRecoveredExactly`);
- the server reads a request's header as it was written: exactly when the id fits 32 bits (`EndToEnd.CallHeaderSurvivesExactly`);
- two Regular frames share an id exactly when their send counts agree modulo 2^32 (`Conn.WireIdsExactly`);
- the eviction rule: exactly when an entry is expired or a non-empty key is among the oldest (`Cache.EvictionExactly`);
- invalidation of a path covers everything below it: exactly when it is not the root (`Tree.CoverageExactly`);
- a read after one's own write, whatever happens meanwhile: right exactly when no fetch of its key has its answer
  as the write takes effect (`Coherence.ReadYourWritesExactly`; `Coherence.JoinedReadIsStale` is a failing case);
- a missing file is an empty one: exactly for NFS and under O_CREATE (`FileSpec.MissingIsEmptyExactly`, `FileSpec.FailedLoad`);
- an NFS name stays under every root: exactly when the chroot is rooted, or the name is rooted and the chroot does not
  clean to a leading "..", or the chroot and the relative name together do not (`Paths.StaysUnderEveryRootExactly`;
  `Paths.DotDotLeaves` and `Paths.ChrootLeaves` are failing cases);
- a nested chroot and a joined name agree: exactly under `Paths.Composes`, which for a relative sub-chroot forbids a
  rooted name that climbs, and for a rooted one any climb (`Paths.ChrootComposesExactly`, `Paths.ChrootEscapes`);
- the NFS backend invalidates the listing that holds a file: exactly when the name ends in a real
  piece (`Paths.ParentKeyExactly`, `Paths.TrailingSlash`).

Where documentation and code differ, the model follows the code: docs/large-project-performance.md
describes a receive queue that drops frames when it is full, while conn.go waits; docs/architecture.md
calls the cache LRU, while cache.go evicts by expiry, which is the order of the last Set, not of use.

## Model

| member | source | states |
|---|---|---|
| `Vql.Writer.WriteVQL` | internal/protocol/serialize.go:75-88 | the loop appends the base-128 encoding of the word, lowest group first |
| `Vql.Reader.ReadVQL` | internal/protocol/serialize.go:91-106 | the shift-and-or loop over at most six bytes yields the base-128 sum modulo 2^32, or the same error, and stands right after the last byte it read, on errors too |
| `Vql.Reader.ReadByte` | internal/protocol/serialize.go:52-59 | next byte and position + 1, or an error and no movement |
| `Vql.Reader.ReadN` | internal/protocol/serialize.go:61-68 | the next n bytes, or an error and no movement |
| `Vql.RoundTrip` | internal/protocol/serialize.go:75-106 | reading what was written, wherever it stands in a buffer, restores every 32-bit word and leaves exactly the rest |
| `Vql.U32NeedsFive` | internal/protocol/serialize.go:75-88 | a word takes at most five bytes |
| `Vql.WriterIsShortest` | internal/protocol/serialize.go:75-106 | no byte string the reader accepts for a value is shorter than the writer's |
| `Vql.PrefixFree` | internal/protocol/serialize.go:75-88 | an encoding that starts another encodes the same number |
| `Vql.GroupsAccepts` | internal/protocol/serialize.go:91-106 | which error: overflow exactly when all remaining groups are there and all are marked as continued |
| `Vql.ParseAccepts` | internal/protocol/serialize.go:91-106 | success exactly when one of the next six bytes is below 128 |
| `Vql.DocumentedEncodings` | docs/protocol.md:81-90 | 0, 127, 128 and 16384 are encoded as the protocol description shows |
| `Serialize.Serialize` | internal/protocol/serialize.go:109-157 | the recursive writer appends exactly the specified encoding |
| `Serialize.Deserialize` | internal/protocol/serialize.go:160-236 | the recursive reader terminates on every input, computes `Parse`, errors included, and stands at `Stop`, on errors too |
| `Serialize.StopsAfterValue` | internal/protocol/serialize.go:160-236 | on success the reader stands exactly where the value ends |
| `Serialize.DeserializeArray` | internal/protocol/serialize.go:193-207 | the element loop reads n values one after another, fails at the first that fails and stands where that one stopped |
| `Serialize.ParseSer` | internal/protocol/serialize.go:109-236 | deserializing a serialized value of any nesting yields its normal form and stops exactly after it |
| `Serialize.RoundTripExactly` | internal/protocol/serialize.go:109-236 | without JSON parts this happens if and only if every length in the value is below 2^32 |
| `Serialize.IdentityExactly` | internal/protocol/serialize.go:109-236 | without JSON parts a value comes back as the very value it was if and only if its lengths and integers fit 32 bits and it holds no float |
| `Serialize.DocumentedFormat` | docs/protocol.md:67-79 | one value of each tag has the bytes that the format description lays out; tags 2 and 3 are both read as bytes |
| `Serialize.SuccessShape` | internal/protocol/serialize.go:160-236 | what a successful read says about the bytes: one of seven tags, the kind of value it stands for, and the text, bytes or JSON that end where the reader stops |
| `Serialize.MessageSplits` | internal/protocol/ipc.go:161-163 | header ++ body splits into exactly its two values, whatever follows |
| `Serialize.ParseExtend` | internal/protocol/serialize.go:160-236 | appended bytes never change a successful result |
| `Serialize.ParseSmall` | internal/protocol/serialize.go:160-236 | a result has no more values, nested in arrays and objects, than bytes consumed, given that JSON text has no more values than bytes |
| `Frames.EncodeFrame` | internal/protocol/frame.go:35-43 | filling the buffer in place yields header and payload in big-endian layout |
| `Frames.Layout` | docs/protocol.md:31-38 | kind, id, acknowledgement, length and payload stand where the frame description puts them, numbers big-endian |
| `Frames.DecodeOwn` | internal/protocol/frame.go:35-59 | a frame within the limit is decoded from its encoding, whatever follows |
| `Frames.RoundTripExactly` | internal/protocol/frame.go:35-59 | the round trip holds if and only if the payload has at most 2^32 - 14 bytes |
| `Frames.FaultsExactly` | internal/protocol/frame.go:45-59 | the slice bounds are out of order exactly when a full header declares more than that |
| `Frames.WholeExactly` | internal/protocol/frame.go:45-59 | data carry a frame exactly when a full header declares a length within the limit and that many bytes follow |
| `Frames.DecodeSplits` | internal/protocol/frame.go:45-59 | whatever decodes starts with the encoding of the frame it decodes to |
| `Frames.DecodeMessage` | internal/protocol/conn.go:124-143 | the offset loop hands on exactly `FramesOf` the message, and fails at run time exactly if what follows them declares too long a frame |
| `Frames.MessageSplits` | internal/protocol/conn.go:124-143 | a message is its decoded frames followed by a tail that starts with no frame |
| `Frames.BatchDecodes` | internal/protocol/conn.go:124-143 | frames batched into one message come out as they went in |
| `Frames.LongestPrefix` | internal/protocol/conn.go:124-143 | every sequence of well-formed frames a message starts with is a prefix of what is decoded |
| `Conn.Connection.SignalClosed` | internal/protocol/conn.go:39-43 | closes the channel the first time only |
| `Conn.Connection.DeliverFrame` | internal/protocol/conn.go:45-65 | acknowledges Regular frames, then queues, refuses or must wait, each only when the select allows it |
| `Conn.Connection.SendFrame` | internal/protocol/conn.go:163-170 | unless closed, the wire grows by exactly the given frame |
| `Conn.Connection.SendRegular` | internal/protocol/conn.go:181-189 | draws the next id modulo 2^32 and writes the payload under it with the latest acknowledgement |
| `Conn.Connection.Close` | internal/protocol/conn.go:209-215 | marks closed and signals, keeping everything else |
| `Conn.ShutdownSafety` | internal/protocol/conn.go:39-65 | over every run: closeCh is closed at most once, nothing is pushed when regularCh is closed, and after `closed` the wire never grows |
| `Conn.InOrderNoLoss` | internal/protocol/conn.go:100-145 | over every run: what was and can be taken from a channel is a prefix of the frames of its kind in the messages read; all of them when the loop is back at the socket |
| `Conn.Delivery` | internal/protocol/conn.go:45-145 | every step keeps channel order, capacity and the accounting of frames begun |
| `Conn.StuckExactly` | internal/protocol/conn.go:45-65 | the read loop cannot step exactly when it has ended or crashed, a full channel of an open connection holds it, or a write to the socket holds the mutex under which it would note its read error |
| `Conn.OnlyTheDispatcherIsWaitedFor` | internal/protocol/conn.go:45-65 | with at most 16 unread Control frames, wherever the read loop is stuck before its end it offers a Regular frame and the dispatcher can take one, or a write to the socket is under way |
| `Conn.SeventeenthControlFrame` | internal/protocol/conn.go:45-65 | the 17th unread Control frame holds the read loop for good: no run without a taker of Control frames and without Close moves it |
| `Conn.WriteHoldsClose` | internal/protocol/conn.go:163-215 | while a write to the socket is under way, on every run Close and the noting of a read error wait, and nothing else is written |
| `Conn.TurnsBounded` | internal/protocol/conn.go:100-145 | on every run without another message, however the others interleave, the read loop takes a bounded number of turns |
| `Conn.ShutdownReached` | internal/protocol/conn.go:100-145 | from every reachable state with closeCh closed, on every such run, whatever select chooses, the read loop can take another turn until it has ended, except while a write to the socket holds the mutex, and its turns are bounded |
| `Conn.CrashExactly` | internal/protocol/conn.go:124-143 | the read loop crashes only on a message that declares too long a frame after its whole ones, and with such a message it never comes back to the socket |
| `Conn.CloseCloses` | internal/protocol/conn.go:209-215 | on every run, after a Close the connection stays closed and closeCh has been closed exactly once |
| `Conn.WireIsWhatWasAsked` | internal/protocol/conn.go:147-189 | over every run, whatever the interleaving: each frame on the wire has the kind and the payload that one send asked for, under the number of that send; a keep-alive is empty; none is written twice; the acknowledgement is the id of the last Regular frame begun when it was loaded |
| `Conn.AskedFrom` | internal/protocol/conn.go:147-189 | each of these requests is one step of a sender, with the payload the step was given |
| `Conn.LastIdExactly` | internal/protocol/conn.go:45-48 | the id acknowledged is that of the Regular frame after which none has begun, and 0 when there is none |
| `Conn.WireAcks` | internal/protocol/conn.go:147-189 | hence every acknowledgement written is 0 or the id of a Regular frame decoded before |
| `Conn.WireIdsExactly` | internal/protocol/conn.go:181-189 | Regular frames on the wire share an id exactly when their send counts agree modulo 2^32; never within 2^32 sends |
| `Ipc.IpcClient.DispatchFrame` | internal/protocol/ipc.go:79-138 | one turn of the loop: classifies the payload, picks the channel before deleting its entry, looks up the event handler, closes the initialized channel once, touches nothing else |
| `Ipc.CutTowardZero` | internal/protocol/ipc.go:229-244 | a kind or id in a header is an integer, or a float cut toward zero by less than one; nothing else is |
| `Ipc.IpcClient.Call` | internal/protocol/ipc.go:151-196 | on the schedule where given payloads are dispatched meanwhile: draws an id, sends the request, returns the first reply to it, a timeout or the send failure, and leaves no entry behind |
| `Ipc.IpcClient.Listen` | internal/protocol/ipc.go:199-215 | draws an id, subscribes it and takes that back when the send fails |
| `Ipc.IpcClient.Dispose` | internal/protocol/ipc.go:217-227 | the returned function removes the subscription and sends the dispose message |
| `Ipc.IpcClient.MessageBytes` | internal/protocol/ipc.go:161-163 | a message is the serialized header followed by the serialized argument |
| `Ipc.RunInv` | internal/protocol/ipc.go:79-227 | every interleaving of calls, listens, timeouts, failed sends and dispatches keeps the invariant that locates each call's response |
| `Ipc.CallGetsItsFirstReply` | internal/protocol/ipc.go:103-120 | a call that returns a response returns the first one processed with its id since it registered |
| `Ipc.FirstReplyFromStart` | internal/protocol/ipc.go:103-120 | that is the first of all when none came before registration |
| `Ipc.NoCrossTalk` | internal/protocol/ipc.go:103-120 | every response in the channel of any call, returned or not, or in the dispatcher's hand for it, carries its id; each channel is sent to at most once |
| `Ipc.DispatcherNeverStalls` | internal/protocol/ipc.go:112-120 | the send to a response channel never blocks |
| `Ipc.NothingLeaks` | internal/protocol/ipc.go:151-203 | `handlers` holds exactly the registered, unreturned, unanswered calls; call ids and listener ids are disjoint |
| `Ipc.AnsweredCallCanReceive` | internal/protocol/ipc.go:172-188 | a waiting call can receive exactly when its reply has been processed |
| `Ipc.InitializedOnce` | internal/protocol/ipc.go:100-101 | however many Initialize messages come, the initialized channel is closed once, and exactly if one came |
| `Ipc.EventsReachTheirListener` | internal/protocol/ipc.go:122-135 | a listener's handler is started exactly once for each event with its id processed between its registration and its end, in order, and never otherwise |
| `EndToEnd.AnswerRecoveredExactly` | internal/protocol/ipc.go:79-120 | a serialized response is classified as itself, with the body as it reads back, if and only if its id fits 32 bits |
| `EndToEnd.EventRecoveredExactly` | internal/protocol/ipc.go:122-135 | the same for an event |
| `EndToEnd.InitializeRecovered` | internal/protocol/ipc.go:100-101 | the Initialize message that starts a session is classified as such |
| `EndToEnd.BatchingIsInvisible` | internal/protocol/conn.go:124-143 | however frames are batched into messages, the loop sees them in order |
| `EndToEnd.LogIsTraffic` | internal/protocol/conn.go:100-145 | for any Regular traffic of answers, events and other non-replies, the dispatcher makes of it what was sent, in order, from the first on, all of it once the queue is empty |
| `EndToEnd.CallsReturnTheirAnswers` | internal/protocol/ipc.go:79-196 | over every interleaving, framing and batching, amid any other traffic: a call returns the server's first answer to its id since it registered, and can return whenever that answer has been dispatched |
| `EndToEnd.ListenersHearTheirEvents` | internal/protocol/ipc.go:122-135 | a listener's handlers start with the bodies of exactly the events the server sent it while it was subscribed, in order |
| `EndToEnd.CallHeaderSurvivesExactly` | internal/protocol/ipc.go:160-163 | the server reads the header of a request as it was written if and only if the id fits 32 bits |
| `EndToEnd.RequestsReachTheServer` | internal/protocol/ipc.go:160-165 | over every run of the connection, the frame on the wire that a request was asked for with decodes to itself, and its payload to the header and the argument of that request |
| `Paths.PrefixExactly` | internal/remotefs/cachedfs.go:113-119 | the string prefix p + "/" picks out exactly the strict descendants of p |
| `Paths.RenderInjective` | internal/remotefs/cachedfs.go:113-119 | cache keys and paths correspond one to one |
| `Paths.DirOfRender` | internal/remotefs/cachedfs.go:117 | path.Dir of a key is the parent's key |
| `Paths.WebdavAbsStaysUnderRoot` | internal/webdav/filesystem.go:25-42 | under every clean root, every name, ".." included, maps to the root or below it; two names collide exactly when they clean to the same path |
| `Paths.CleanPieceByPiece` | internal/webdav/filesystem.go:36-42 | what cleaning does to a rooted name, piece by piece: nothing and "." stay, ".." goes to the parent and stays at the root, a name goes down |
| `Paths.TrimSpaceExactly` | internal/webdav/filesystem.go:36-37 | trimming takes spaces off both ends, all of them, and nothing else |
| `Paths.TrimSpaceTight` | internal/webdav/filesystem.go:36-37 | a name without outer spaces is left as it is |
| `Paths.SpacesAre` | internal/webdav/filesystem.go:36-37 | no printing character of ASCII is a space; blanks, tabs and line ends are |
| `Paths.TrimSlashesExactly` | internal/webdav/filesystem.go:25-29 | only slashes are cut off the root, at its end, and all of them |
| `Paths.WebdavAbsOfName` | internal/webdav/filesystem.go:36-42 | a name, with spaces around it or not, maps to the root and below it the path that the name itself cleans to |
| `Paths.NfsAbsIs` | internal/nfs/filesystem.go:38-47 | the remote path of every name under every chroot, ".." included: a rooted chroot or name confines ".." to what is above it, a relative one does not |
| `Paths.NfsStaysUnderRoot` | internal/nfs/filesystem.go:38-47 | without "..", root, chroot and name are one below the other |
| `Paths.StaysUnderEveryRootExactly` | internal/nfs/filesystem.go:38-47 | for every chroot and name: it stays under every root if and only if the chroot is rooted, or else what is walked from the root, the chroot and a relative name, does not clean to a leading ".." |
| `Paths.ChrootLeaves` | internal/nfs/filesystem.go:190-198 | below the chroot ".." even a rooted name stands outside the root |
| `Paths.DotDotLeaves` | internal/nfs/filesystem.go:38-47 | the names ".." and "/..": one leads to the root's parent, the other to the root |
| `Paths.ChrootComposesExactly` | internal/nfs/filesystem.go:190-198 | for every sub-chroot and name: under every root and chroot the name under the nested chroot is the joined name under the outer one, if and only if no ".." of theirs climbs out of a rooted part |
| `Paths.ChrootEscapes` | internal/nfs/filesystem.go:190-198 | two kinds of failing sub-chroot and name, and one with ".." that composes |
| `Paths.ParentKeyExactly` | internal/nfs/file.go:163-168 | for every name, abs(Dir(name)) is the parent of abs(name) if and only if the name ends in a real piece |
| `Paths.TrailingSlash` | internal/nfs/file.go:163-168 | a name with a trailing slash: its key and the listing key that is invalidated are the same |
| `Tree.InvalidatePathExactly` | internal/remotefs/cachedfs.go:113-119 | invalidatePath removes exactly the stats of p and its descendants and the listings of p, its parent and its descendants |
| `Tree.OperationCoversExactly` | internal/remotefs/cachedfs.go:80-119 | the invalidations of a successful operation cover exactly the stats and listings that concern the paths it names |
| `Tree.BatchCoversExactly` | internal/remotefs/cachedfs.go:121-125 | a batch of change events covers exactly what one of its names covers |
| `Tree.RootInvalidation` | internal/remotefs/cachedfs.go:113-119 | for the root it removes the root's own keys and nothing below |
| `Tree.CoverageExactly` | internal/remotefs/cachedfs.go:113-119 | so it covers what a change at p concerns if and only if p is not the root |
| `Tree.FootprintAdequate` | internal/remotefs/cachedfs.go:80-111 | write, mkdir, delete and rename change no stat or listing outside the footprint of the paths they name |
| `Tree.RenameMovesSubtree` | internal/remotefs/cachedfs.go:104-111 | the modelled rename carries the subtree over, leaves nothing behind and keeps nothing of its target |
| `Cache.Cache.Get` | internal/cache/cache.go:30-38 | the live entry of the key |
| `Cache.Cache.Set` | internal/cache/cache.go:40-53 | evicts at the limit, then stores with a fresh expiry, and keeps agreement with the history of calls |
| `Cache.Cache.EvictOne` | internal/cache/cache.go:72-91 | the loop with its running oldest key deletes the victim of the iteration order, and nothing else |
| `Cache.Cache.Invalidate` | internal/cache/cache.go:55-59 | removes the key only, and keeps agreement with the history |
| `Cache.Cache.InvalidatePrefix` | internal/cache/cache.go:62-70 | the loop removes exactly the keys with the prefix, in any iteration order |
| `Cache.LookupAgrees` | internal/cache/cache.go:30-38 | a hit is the last value set and not invalidated since, at most ttl old; a miss is explained by no such set, eviction or age |
| `Cache.EvictionExactly` | internal/cache/cache.go:72-91 | for every iteration order an expired entry goes first, else one with the earliest expiry, if and only if some entry is expired or a non-empty key is among the oldest |
| `Cache.EvictsLeastRecentlyPut` | internal/cache/cache.go:72-91 | without expired entries the victim is the least recently set key, up to ties |
| `Cache.StoredSize` | internal/cache/cache.go:40-53 | Set keeps the size within the limit when no key is empty |
| `Cache.PutKeeps` | internal/cache/cache.go:40-53 | agreement with the history and the size bound survive eviction and store |
| `Cache.StoredExactly` | internal/cache/cache.go:40-53 | Set leaves the key with its fresh entry and the others unchanged, of which none goes below the limit and exactly the victim at it |
| `Cache.ReadCachedReadsThrough` | internal/remotefs/cachedfs.go:40-56 | a live entry answers and nothing changes; else a success of the base answers and stands in the cache for a lifetime, at the price of the victim at most; an error changes nothing |
| `Coherence.RunInv` | internal/remotefs/cachedfs.go:40-125 | every step of fetches, mutations, invalidations in any order, evictions and expiries keeps each entry accounted for |
| `Coherence.StaleIsDueOrRaced` | internal/remotefs/cachedfs.go:40-125 | over every run, a read told by the cache or by the fetch it joins what the remote would not answer has an invalidation of its key due, or is told what was fetched before one went past |
| `Coherence.WatchCoherence` | internal/remotefs/cachedfs.go:40-125 | with atomic fetches, cached answers differ from the remote's only where an invalidation is due; with none due they agree everywhere |
| `Coherence.MutationIsDue` | internal/remotefs/cachedfs.go:80-125 | every answer a mutation changes is covered by an invalidation it makes due |
| `Coherence.RunAllKeeps` | internal/remotefs/cachedfs.go:113-125 | after a list of invalidations exactly the uncovered entries remain, the running fetches it covers are overtaken, and none of it is due |
| `Coherence.ReadYourWrites` | internal/remotefs/cachedfs.go:40-119 | over every interleaving: when an operation takes effect while no fetch of a concerned key has its answer, every read of the key after the operation's invalidations, until another change concerns it, is told the remote's answer |
| `Coherence.ReadYourWritesExactly` | internal/remotefs/cachedfs.go:40-119 | that holds, whatever a running fetch of the key may hold and whatever happens meanwhile, if and only if no fetch of the key has its answer when the operation takes effect |
| `Coherence.JoinedReadIsStale` | internal/remotefs/cachedfs.go:44-51 | the failing case: on any tree with a file, the writer's own next stat joins a running fetch and is told the size before the write |
| `Coherence.RaceIsReal` | internal/remotefs/cachedfs.go:42-51 | on any tree with a file, a stat fetched before a write and stored after its invalidations stays wrong with nothing due |
| `CachedFS.CachedFS.StatPath` | internal/remotefs/cachedfs.go:40-56 | a hit answers alone; after a miss the cache holds the base's answer under the key for a lifetime; errors are not stored |
| `CachedFS.CachedFS.ReadDirPath` | internal/remotefs/cachedfs.go:58-74 | the same for listings |
| `CachedFS.CachedFS.Invalidate` | internal/remotefs/cachedfs.go:113-119 | the five calls leave exactly the entries that the invalidation list does not cover |
| `CachedFS.CachedFS.Mutated` | internal/remotefs/cachedfs.go:80-102 | invalidates after success only |
| `CachedFS.CachedFS.Renamed` | internal/remotefs/cachedfs.go:104-111 | invalidates both paths after success only |
| `CachedFS.CachedFS.ApplyChanges` | internal/remotefs/cachedfs.go:121-125 | the loop over change events leaves exactly what none of them covers |
| `CachedFS.ReadRefines` | internal/remotefs/cachedfs.go:40-74 | a read through the wrapper is a run of the machine: nothing, or an eviction and an atomic fetch; remote and debts unchanged |
| `CachedFS.WrapperRefines` | internal/remotefs/cachedfs.go:40-125 | every sequence of wrapper reads, operations, foreign changes and event batches is a run of the machine that ends with the same entries, remote and debts |
| `CachedFS.WrapperIsCoherent` | internal/remotefs/cachedfs.go:40-125 | from empty caches, after any such sequence, with clock, expiry and eviction: a read answers what the remote does unless an invalidation of its key is owed; with none owed all reads are exact |
| `CachedFS.ReadsRepeat` | internal/remotefs/cachedfs.go:40-74 | caching itself: after a miss that the remote answered, and any actions that neither invalidate nor evict the entry, every read of the key within the lifetime is told the same, whatever the remote would say by then |
| `Staleness.AnswersAreRecent` | internal/cache/cache.go:30-53 | through any stack of read-through caches an answer was the remote's within the sum of the lifetimes, even if no invalidation fires |
| `Staleness.ThirtyFiveSecondsHappen` | internal/nfs/filesystem.go:85-102 | a run in which the answer is exactly that old |
| `NfsFileSystem.ReadBothIsReadThrough` | internal/nfs/filesystem.go:85-102 | a read through both caches is one read of the staleness model, beyond which entries only vanish by eviction |
| `NfsFileSystem.SharedReadIsReadThrough` | internal/remotefs/cachedfs.go:40-74 | and so is a read of the shared cache alone, from its layer on |
| `NfsFileSystem.RunKeeps` | internal/nfs/filesystem.go:28-35 | every sequence of NFS reads, shared reads, remote changes, clock ticks and losses keeps each entry of both caches within its age |
| `NfsFileSystem.NfsReadsAreRecent` | internal/nfs/filesystem.go:28-35 | from empty caches, after any such sequence, with expiry and eviction: a stat answer is at most 35 seconds old, a listing at most 18, even if no invalidation ever fires |
| `NfsFileSystem.ReadBothReadsThrough` | internal/nfs/filesystem.go:85-102 | a read of both caches reads through the outer one over, if that misses, a read through the inner one; each that misses then holds the answer |
| `NfsFileSystem.ReadsRepeat` | internal/nfs/filesystem.go:138-164 | caching itself in either layer: after a read that missed the layer and was answered, by the other layer or the remote, and any actions that neither invalidate nor evict the entry of the layer, the layer answers the same for its lifetime, whatever the remote would say by then |
| `NfsFileSystem.FileSystem.StatFile` | internal/nfs/filesystem.go:85-102 | reads through both stat caches under the absolute path, and leaves the answer, for its lifetime, in each that missed |
| `NfsFileSystem.FileSystem.ReadDirectory` | internal/nfs/filesystem.go:138-164 | reads through both listing caches under the absolute path, and leaves the answer, for its lifetime, in each that missed |
| `NfsFileSystem.FileSystem.Remove` | internal/nfs/filesystem.go:115-122 | on success forgets the stat and the containing listing here, and the whole footprint in the shared caches |
| `NfsFileSystem.FileSystem.MkdirAll` | internal/nfs/filesystem.go:166-172 | on success forgets the containing listing and leaves the stat cache alone |
| `NfsFileSystem.FileSystem.Rename` | internal/nfs/filesystem.go:104-113 | on success forgets both stats and both containing listings here, and both footprints in the shared caches |
| `NfsFileSystem.FileSystem.Forget` | internal/nfs/file.go:163-168 | removes exactly the file's stat key and its listing key |
| `NfsFileSystem.FileSystem.CloseFile` | internal/nfs/file.go:155-172 | Close with its caches: a successful write-back, and nothing else, forgets the stat and the containing listing here and the footprint in the shared caches |
| `FileSpec.LazyIsEager` | internal/nfs/file.go:31-172 | if the remote is steady until the first load, every run gives the results and the remote writes of a file read at opening |
| `FileSpec.OpenedIsRemote` | internal/nfs/file.go:31-47 | opened unloaded and with the remote steady, every run gives the results of the file whose content is the very bytes that the remote sends |
| `FileSpec.MissingIsEmpty` | internal/nfs/file.go:35-42 | with no file on the remote, every run gives the results of an empty file, for NFS and under O_CREATE |
| `FileSpec.MissingIsEmptyExactly` | internal/webdav/filesystem.go:299-318 | and for an operation that needs the content only then |
| `FileSpec.FailedLoad` | internal/webdav/filesystem.go:299-318 | otherwise such an operation fails with that error, does nothing else and leaves the file as it was |
| `FileSpec.OneFlush` | internal/nfs/file.go:155-172 | over every run at most one remote write, at the first Close, of the content at that moment, exactly if the file was opened dirty or edited before |
| `FileSpec.CloseReports` | internal/nfs/file.go:155-172 | a Close fails exactly if it wrote back and the remote did not accept that |
| `FileSpec.PositionIs` | internal/nfs/file.go:49-135 | after every run the position is what the operations alone say: the last accepted seek target and the bytes read and written since |
| `FileSpec.LastWriterWins` | internal/nfs/file.go:90-153 | after any run byte i is the latest covering write, at the position the operations alone give it, since i was last cut off, else the original byte if never cut, else 0 |
| `FileSpec.UploadIsJoined` | internal/webdav/filesystem.go:276-297 | blocks written one after another into a new file are its content one after another |
| `FileSpec.RefusedExactly` | internal/nfs/file.go:49-98 | reads and writes are refused exactly after a Close of the NFS file, and then nothing changes |
| `FileSpec.EditsSucceed` | internal/nfs/file.go:90-153 | writes and truncations that are not refused succeed, and a write takes all its bytes |
| `FileSpec.ReadSeesHistory` | internal/nfs/file.go:49-68 | what Read and ReadAt return, how much of it, when with EOF, and where they leave the position, from the edit history alone |
| `FileSpec.SeekLands` | internal/nfs/file.go:115-135 | where a seek lands, counted from the start, the position or the length that the history gives; a negative target changes nothing |
| `FileSpec.UnknownWhence` | internal/webdav/filesystem.go:184-209 | for an unknown whence the NFS file goes to the start and the WebDAV file reports it and stays |
| `FileSpec.BeyondIsZero` | internal/nfs/file.go:137-153 | bytes beyond the length are zero, so growing never brings old bytes back |
| `Files.Buffer.Overwrite` | internal/nfs/file.go:100-109 | in place or in a fresh array, the content becomes the overlay; stale bytes of the backing array stay invisible |
| `Files.Buffer.SetSize` | internal/nfs/file.go:143-150 | shrinking keeps the array, growing zero-fills a fresh one |
| `Files.NfsFile.Read` | internal/nfs/file.go:49-68 | copies into the caller's array what the specified read returns and leaves the rest of the array alone |
| `Files.NfsFile.ReadAt` | internal/nfs/file.go:70-88 | the same without moving the position |
| `Files.NfsFile.Write` | internal/nfs/file.go:90-113 | overlays the bytes at the position on the shared array and moves the position behind them |
| `Files.NfsFile.Seek` | internal/nfs/file.go:115-135 | performs the specified seek; an unknown whence means 0 |
| `Files.NfsFile.Truncate` | internal/nfs/file.go:137-153 | performs the specified truncation, also after Close |
| `Files.NfsFile.Close` | internal/nfs/file.go:155-172 | the file's part of Close: the first one writes back a dirty file, later ones do nothing |
| `Files.NfsFile.LoadContent` | internal/nfs/file.go:31-47 | loads once, the bytes that the remote sends; a missing file is empty, any other error leaves the file as it was |
| `Files.NfsFile.Create` | internal/nfs/filesystem.go:51-61 | a created file is loaded, empty and dirty |
| `Files.WebdavFile.Read` | internal/webdav/filesystem.go:163-182 | as for NFS, without a check for Close; EOF on a directory |
| `Files.WebdavFile.ReadAt` | internal/webdav/filesystem.go:256-274 | as for NFS, without a check for Close; EOF on a directory |
| `Files.WebdavFile.Write` | internal/webdav/filesystem.go:276-297 | as for NFS, without a check for Close; an error on a directory |
| `Files.WebdavFile.Seek` | internal/webdav/filesystem.go:184-209 | performs the specified seek; an unknown whence is an error, and so is a directory |
| `Files.WebdavFile.Close` | internal/webdav/filesystem.go:143-161 | the first Close of a dirty file writes back and, on success, records size and time; later ones and those of directories write nothing |
| `Files.WebdavFile.Stat` | internal/webdav/filesystem.go:243-254 | loads the content and records its length as the size, except for a directory |
| `Files.WebdavFile.EnsureLoaded` | internal/webdav/filesystem.go:299-318 | loads once, the bytes that the remote sends; a missing file is empty only under O_CREATE |
| `Files.WebdavFile.Existing` | internal/webdav/filesystem.go:57-66 | an existing file or directory opens unloaded and clean, whatever O_TRUNC says |
| `Files.WebdavFile.Created` | internal/webdav/filesystem.go:67-84 | a new file opens loaded and empty, dirty only with O_TRUNC |
| `Paging.PagesAreTheListing` | internal/webdav/filesystem.go:211-241 | for every sequence of counts the pages add up to the listing, each entry once; EOF exactly on a positive count that reaches the end |
| `Paging.Directory.Readdir` | internal/webdav/filesystem.go:211-241 | one page from the current position of a listing loaded once |

## Left out

- Login, cookies, WebSocket dialing, the handshake's JSON exchange, command-line flags, mount commands and server start-up: I/O plumbing.
- The terminal client and session: raw mode and signals.
- go-nfs, x/net/webdav, gorilla/websocket and code-server itself: not part of this model.
- JSON text: a pair of unknown functions; NaN and infinite floats are not values of the model.
- Memory limits: the reader's array of a declared length is not bounded by memory here.
- A crash of the read loop: the model ends there, and the deferred calls that still run while the process dies are not steps of it.
- Close: the socket's own closing, which runs under the mutex, takes no time in the model; a sender's write takes as long as it likes.
- Linearizability of concurrent cached reads and exactly one fetch per miss: the source does not provide them.
- Exact coherence of the NFS layer's own caches: they see no watch event, so only bounded staleness is proved.
- Fetches that take time, in the staleness bound: a fetch is one moment there, while `Coherence` splits it.
- The mapping of responses 202 and 203 to Go errors, parseStat, parseDirEntries, file modes and IsNotFound: field-by-field code.
- Other fields of the WebDAV file's info record than size and time, and Readdir on a handle that is no directory.
- Call: the class method runs one schedule, with the dispatch loop's turns inside the wait; all other interleavings are runs of `Ipc`'s machine.
- Negative offsets in ReadAt and negative sizes in Truncate: the source demands them to be non-negative.
