# Verification of kit_rpc_cpp

A Dafny 4.11 model of the parts of the RPC framework whose correctness is not visible in any one function, with proofs
about it. `dafny verify dfyconfig.toml` checks the whole project.

* **Messages.** `Wire` is the protobuf wire format (Protocol Buffers Encoding: base-128 varints, tags, length-delimited
  records, groups), `Utf8` is section 4 of RFC 3629, `Messages` says what each record does to a message and which
  records a message is written as, `Codec` holds the laws, `Meaning` says without the parser what a list of records
  means, `Layout` lists the bytes a message is written as, and `Objects` and `ResponseObject` are the generated classes
  with their parse loops, serializers and size caches, each method tied to `Messages`. A message includes its unknown
  fields, with nested groups up to the recursion limit of 100. The order in which a map is visited is arbitrary.
* **RPC.** `RpcHeader` and `Framing` are the request frame and the loop that takes it apart; `Cuts` is about deliveries
  that end inside a frame, with `HeaderCost` counting the nonzero bytes of a header; `Provider` is the service table and
  the receive loop on a `Buffer`; `Registry` is a step system of any number of providers and clients over one ZooKeeper
  tree, `Registration` says which methods a provider is registered for, and `Discovery` what a client gets and where its
  calls arrive. The 4-byte size prefix is raw host order in the code; both ends are taken to be little-endian.
* **Queues and locks.** `QueueProtocol` is one step system for `BoundedBlockingQueue`, `BlockingQueue` and `LogQueue`
  (any number of threads, Mesa condition variables, spurious wakeups, barging); `QueueHistory` is about what their
  callers get; `LoggerProtocol` adds the writer thread; `Monitor` is the holder tracking of `MutexLock` one operation at
  a time, and `QueueOnMonitor` shows that every queue run is a run of it.
* **Buffers.** `Buffers` and `BufferStream` are classes over a real array; `Bytes` has the byte-order conversions.
* **Configuration.** `Ini` is the parser, `Endpoints` follows an address from the file to the connection.

Main results:

* A `Response` survives serialization exactly when its strings are UTF-8, whatever the order of the map, and appended
  bytes merge (`Codec.RoundTrip`, `Codec.AppendedBytesMerge`).
* Whatever bytes the parser accepted can be written again and mean the same (`Codec.ReserializedInputIsEquivalent`), and
  the message is the one its records describe, last one wins (`Meaning.LastOneWins`).
* The inner do/while loops of the parser agree with the plain tag switch on every input
  (`ResponseObject.Response.InternalParse`).
* A stream of frames is served, however it is cut into deliveries, exactly when every cut is at a frame boundary
  (`Cuts.OnTimeIffCutAtBoundaries`, `Cuts.CutsAreHarmlessIff`).
* No wakeup of any of the three queues is lost, a bounded queue can deadlock exactly when its capacity is zero, every
  run comes to rest with only those asleep who have to be (`QueueProtocol.RunsComeToRest`), and callers get the items in
  the order in which they were put (`QueueHistory.ReturnsAreFifo`).
* Every message logged before an empty one is written in the end (`LoggerProtocol.LogComesToRest`).
* Whoever wins the race to register, an entry belongs to one open session that serves it, and a call made with it is
  resolved as long as that session stays open and hosts are not shared (`Discovery.CallsReachTheirMethod`).
* The memory of a `Buffer` stays below a bound that is also reached.
* In every run of providers with configuration files of any content, as long as what they publish is shorter than 128
  bytes, the endpoint a client connects to is the one the provider listens on exactly when the ip in its file has no
  colon and `stoi` accepts the port (`Endpoints.ConfiguredAddressIsCalled`).

Where the code and its comments differ, the model follows the code: `readInt64` asks for eight readable bytes, not for
the four its comment names (include/muduo/net/Buffer.h:253, include/muduo/net/Buffer.h:292).

Some things one might expect do not hold; for each the model has an input or a run that shows it, and the exact
condition:

* Deliveries that are cut elsewhere than at frame boundaries: no cut inside a frame is harmless, not even one whose
  first part is dispatched as the whole call because the missing bytes are zero (`Cuts.NoCutOfAFrameIsHarmless`,
  `Cuts.OnTimeIffCutAtBoundaries`, `Cuts.CutsAreHarmlessIff`, `Cuts.CutCallThrows`).
* A frame from another peer whose names are not UTF-8 ends the loop, and drops the frames behind it
  (`Framing.FramesAreDispatched`, `Framing.BadNameStopsTheLoop`). Calls made through `CallMethod` take their names from
  protobuf descriptors.
* onMessage need not return: it runs for ever exactly when its 32-bit offset comes to the same place twice
  (`Framing.LoopsForeverIff`), as it does on ten bytes (`Framing.EndlessInput`).
* A provider need not be registered for what it serves: it is, for the rest of its session, exactly when it came to
  zoo_create and nothing was at the path (`Registration.RegisteredIff`, `Registration.LoserOutlivesWinner`).
* A host once looked up may lead to another provider when the session has closed or two providers share a host
  (`Discovery.ClosedSessionMisleads`, `Discovery.SharedHostMisleads`). Whoever is reached invokes the call exactly when
  it serves the method (`Discovery.HandledIffServed`); that it does is certain while the session is open and hosts are
  distinct (`Discovery.CallsReachTheirMethod`).
* A line with a '=' need not be read: `parse` throws on it or leaves C++ (`Ini.SplitLineIff`, `Ini.KeysWithoutValue`).
* A configured endpoint reaches the client as the provider reads it exactly when the port is a text that `stoi` accepts
  and the ip has no colon (`Endpoints.EndpointsAgreeIff`, `Endpoints.ColonIsMisread`,
  `Endpoints.IntPortIsNotPublished`).

## Model

| member | source | states |
|---|---|---|
| Wire.VarintRoundTrip | tests/test.pb.cc:700 | a number below 128^max is read back by a reader of at most max bytes, with the bytes it takes, whatever follows |
| Wire.VarintSizeIsLength | tests/test.pb.cc:786-787 | the size formula is the number of bytes a varint takes, for all 64-bit values |
| Wire.FieldRoundTrip | tests/test.pb.cc:727-731 | every well-formed record, groups included, is read back whole whatever follows it |
| Wire.DecodedIsWellFormed | tests/test.pb.cc:727-731 | every record the reader accepts is well formed, so it can be written again |
| Wire.ReadersIff | tests/test.pb.cc:695-700 | for every input: a tag is read exactly when a varint ends within five bytes, a number within ten, a length within five and below 2 GiB with its bytes behind it, and the value is the sum of the 7-bit groups in 32 or 64 bits |
| Wire.NestingIsLimited | tests/test.pb.cc:727-730 | n nested groups are read exactly when the budget is at least n |
| Wire.ParseEncoded | tests/test.pb.cc:693-732 | the parse loop on encoded records followed by anything applies the records in order and goes on with the rest |
| Messages.Int32RoundTrip | tests/test.pb.cc:699-702 | every int32 or enum, sign-extended to 64 bits on the wire, is truncated back to itself |
| Messages.Int32OnTheWire | tests/test.pb.cc:941-945 | a 64-bit reader gets the same signed number; a negative one takes exactly ten bytes, any other at most five |
| Messages.ToInt32IsCongruent | tests/test.pb.cc:902-905 | for every number on the wire the field becomes the 32-bit signed number congruent to it modulo 2^32 |
| Messages.ApplyErrorFields | tests/test.pb.cc:741-815 | applying what Error writes to any Error gives MergeImpl of the two, or fails on a bad string |
| Messages.ApplyEntryField | tests/test.pb.cc:1175-1188 | a written map entry sets its key, overwriting an old value, exactly when the value is UTF-8 |
| Messages.ApplyQunzuPart | tests/test.pb.cc:1254-1277 | the entries, in any order of the keys, add or overwrite exactly those keys |
| Messages.ApplyResPart | tests/test.pb.cc:1279-1285 | repeated elements are appended in order, each as it was |
| Messages.ApplyResponseFields | tests/test.pb.cc:1347-1368 | applying what Response writes to any Response gives MergeImpl of the two, or fails on a bad string |
| Codec.ParseConcat | tests/test.pb.cc:1142-1217 | parsing a concatenation goes on from the message its first part produced |
| Codec.AppendedBytesMerge | tests/test.pb.cc:1347-1368 | any accepted bytes followed by a serialized Response mean the merge of the two; only a string that is not UTF-8 makes it fail |
| Codec.ConcatenationMerges | tests/test.pb.cc:1347-1368 | two serialized Responses in a row mean their merge |
| Codec.RoundTrip | tests/test.pb.cc:1140-1293 | parsing the serialization of a Response gives it back exactly when all its strings are UTF-8, for every map order |
| Codec.ParsedResponseIsValid | tests/test.pb.cc:1140-1224 | everything the parser returns has values in range and only UTF-8 strings |
| Codec.ReserializedInputIsEquivalent | tests/test.pb.cc:1140-1293 | for every accepted input, writing the parsed message and parsing that gives the same message |
| Codec.SerializationRoundTrip | tests/test.pb.cc:1226-1293 | whatever bytes a serialization of a valid Response may produce, parsing them gives it back exactly when all its strings are UTF-8 |
| Layout.ResponseLayout | tests/test.pb.cc:1226-1293 | the bytes of a Response in tags 10, 18, 24, 34 and 42 with their lengths, fields that hold their default left out, for every order of the map |
| Layout.ErrorLayout | tests/test.pb.cc:741-768 | the same for Error: tag 8 and a 64-bit varint, tag 18 and a string |
| Layout.ResultLayout | tests/test.pb.cc:935-954 | the same for Result |
| Layout.MinusOne | tests/test.pb.cc:941-945 | id -1 is written as 08 FF FF FF FF FF FF FF FF FF 01 |
| Meaning.ParseIsDecodeThenApply | tests/test.pb.cc:1142-1217 | the one-pass loop is the same as first splitting the whole input into records and then applying them |
| Meaning.LastOneWins | tests/test.pb.cc:1140-1224 | in every accepted input the last pwd and isOnline win, the last entry of each key wins, res holds its elements in order, err is the meaning of its pieces joined, and all other records are kept |
| Meaning.ErrorMeans | tests/test.pb.cc:691-739 | for every input and old value: accepted exactly when it consists of records and its string is UTF-8, and then the last of each field counts and the others are kept |
| Meaning.ResultMeans | tests/test.pb.cc:897-933 | the same for Result |
| Meaning.EntryMeans | tests/test.pb.cc:1175-1188 | the same for a map entry, which keeps nothing else |
| Meaning.ParsesIff | tests/test.pb.cc:1140-1224 | a Response is accepted exactly when the input consists of records and each known one is acceptable, nested messages in turn and within the budget |
| Meaning.RecursionLimit | tests/test.pb.cc:1142-1217 | n nested groups are accepted exactly up to a hundred |
| Utf8.ValidIffEncoded | tests/test.pb.cc:709-716 | a byte sequence passes VerifyUTF8 exactly when it is the encoding of some Unicode scalar values |
| Codec.LengthIsOrderFree | tests/test.pb.cc:1303-1310 | the serialized length does not depend on the order in which the map is visited |
| Objects.Error.InternalParse | tests/test.pb.cc:691-739 | the loop over positions computes the record-by-record meaning of the bytes on top of what the object held, or fails when that does |
| Objects.Error.InternalSerialize | tests/test.pb.cc:741-768 | what is appended to target is the encoding of the object's value |
| Objects.Error.ByteSizeLong | tests/test.pb.cc:770-791 | the accumulated size is the number of bytes InternalSerialize writes, unless both are 4 GiB and more, and is cached |
| Objects.Error.MergeFrom | tests/test.pb.cc:800-815 | the object becomes the merge of the two values |
| Objects.Result.InternalParse | tests/test.pb.cc:897-933 | as for Error |
| Objects.Result.InternalSerialize | tests/test.pb.cc:935-954 | as for Error |
| Objects.Result.ByteSizeLong | tests/test.pb.cc:956-970 | as for Error |
| ResponseObject.Response.ParseQunzuRun | tests/test.pb.cc:1175-1188 | the do/while over map entries builds the same message and stops at a place from which the outer loop gives the same result as if every element had gone through the tag switch, wherever DataAvailable says no |
| ResponseObject.Response.ParseResRun | tests/test.pb.cc:1189-1202 | the same for the repeated field |
| ResponseObject.Response.InternalParse | tests/test.pb.cc:1140-1224 | the whole loop computes the record-by-record meaning of every input, on top of what the object held |
| ResponseObject.Response.InternalSerialize | tests/test.pb.cc:1226-1293 | with fresh caches, the output is the encoding of the value for some order of the map, length prefixes taken from the caches |
| ResponseObject.Response.ByteSizeLong | tests/test.pb.cc:1295-1338 | the size, added up in another order and with 32-bit casts, is the exact serialized length unless both are 4 GiB and more, and below 2 GiB every nested cache is fresh afterwards |
| ResponseObject.ResultSizes | tests/test.pb.cc:1312-1317 | the repeated field's share of the size, in the same sense, with every element's cache refreshed and no value changed |
| ResponseObject.Response.MergeFrom | tests/test.pb.cc:1347-1368 | the object becomes the merge of the two values, nested message included |
| ResponseObject.Response.Clear | tests/test.pb.cc:1123-1138 | the object becomes the default message |
| ResponseObject.Response.SerializePartialToString | tests/test.pb.cc:1226-1338 | fails exactly from 2 GiB on; otherwise the bytes are an encoding of the value and as many as ByteSizeLong said |
| ResponseObject.Transfer | tests/test_proto.cpp:42-97 | a message written by one object and read by another arrives equal exactly when its strings are UTF-8 |
| RpcHeader.HeaderRoundTrip | api/proto/common/rpc_header.proto:6-11 | a header is read back as written exactly when both names are UTF-8 |
| Meaning.HeaderMeans | api/proto/common/rpc_header.proto:6-11 | for every input: a header is accepted exactly when it is below 2 GiB, consists of records and has UTF-8 names; the last of each field counts and fields it does not know are kept |
| Layout.HeaderLayout | api/proto/common/rpc_header.proto:6-11 | the bytes of a header: tags 10, 18 and 24, empty fields left out |
| Framing.BuildRequest | src/rpc_channel.cpp:35-66 | three inserts at a running 32-bit offset build the frame, of which the length modulo 2^32 is sent, so all of it below 4 GiB; fails exactly when serialization does |
| Framing.CallOnTheWire | src/rpc_channel.cpp:35-66 | the thirteen bytes of one call |
| Framing.TurnOnFrame | src/rpc_provider.cpp:119-141 | anywhere in the data, one turn of the loop takes exactly one frame apart, or stops on a name that is not UTF-8 |
| Cuts.TurnDispatchesIff | src/rpc_provider.cpp:118-141 | for all data and every offset at which no sizes reaching 2^32 are claimed: a turn dispatches exactly what is read there as size, header and arguments, with zeros for missing bytes, where the header and announced arguments begin no later than where the data ends |
| Cuts.TurnThrowsIff | src/rpc_provider.cpp:118-138 | for all data without such a claim: data.copy throws exactly when the size is cut or announced arguments would begin behind the end |
| Framing.LoopsForeverIff | src/rpc_provider.cpp:118-149 | for every input the loop never ends exactly when it comes to the same offset twice, and that is when the model says Forever |
| Framing.EndlessNeedsHugeClaim | src/rpc_provider.cpp:118-140 | it ends on all data below 4 GiB in which no frame claims sizes that reach 2^32 |
| Framing.EndlessInput | src/rpc_provider.cpp:118-140 | ten bytes on which it never ends |
| Framing.FramesAreDispatched | src/rpc_provider.cpp:113-150 | on a concatenation of frames below 4 GiB the loop ends and dispatches exactly the framed calls in order, up to the first with a name that is not UTF-8 |
| Framing.FramesAreDrainedIff | src/rpc_provider.cpp:118-149 | a stream of calls with UTF-8 names is drained exactly when it is shorter than 4 GiB |
| Cuts.CutArgumentsBecomeZeros | src/rpc_provider.cpp:116-141 | a frame cut inside its arguments is dispatched at once with zeros for the bytes that have not arrived |
| Cuts.CutCallLooksWholeIff | src/rpc_provider.cpp:132-141 | that dispatch is the call that was sent exactly when the missing bytes are all zero |
| Cuts.CutCallThrows | src/rpc_provider.cpp:116-141 | a call cut before its last byte is dispatched whole by the first delivery, and the second throws |
| Cuts.NoCutOfAFrameIsHarmless | src/rpc_provider.cpp:116-149 | the pieces of one frame, cut anywhere, are all drained and dispatch together just the call exactly when there is one piece |
| Cuts.CutsAreHarmlessIff | src/rpc_provider.cpp:113-150 | the same for every stream of calls with headers below 32 KiB, cut anywhere any number of times: drained, and dispatching in the end exactly the calls, if and only if every cut is at a frame boundary |
| HeaderCost.WrittenHeaderIsCheapest | src/rpc_provider.cpp:125-130 | no encoding of the same names and size has fewer nonzero bytes than the header CallMethod writes |
| Cuts.OnTimeIffCutAtBoundaries | src/rpc_provider.cpp:113-150 | for every stream of calls and every way to cut it: each delivery is drained and dispatches exactly the calls it completes if and only if every cut is at a frame boundary |
| Framing.BadNameStopsTheLoop | src/rpc_provider.cpp:126-130 | a frame whose service name is the byte FF is given up on |
| Framing.CutsDoNotMatter | src/rpc_provider.cpp:113-150 | cutting the stream at any frame boundaries leaves the dispatched sequence the same |
| Provider.Provide.NotifyService | src/rpc_provider.cpp:30-45 | a new name is published with the set of its methods; a name already there keeps its entry |
| Provider.Provide.OnMessage | src/rpc_provider.cpp:113-150 | drains the buffer and handles exactly the dispatches the data means, in order; Forever stands for a call that does not return |
| Provider.ServeFrames | src/rpc_provider.cpp:153-170 | each framed call is looked up under the names it was sent with |
| Registry.PathsAreDistinct | src/rpc_channel.cpp:76-79 | paths of different methods differ, and no method path is a service path |
| Registry.PathsAreTexts | src/rpc_provider.cpp:67-84 | the paths are /service and /service/method |
| Registry.ParentExists | src/zookeeper/zookeeper_cli.cpp:82-100 | in an open session zoo_create never lacks a parent, and takes effect exactly when no node is there |
| Registry.InvStep | src/rpc_provider.cpp:67-93 | every step of providers, sessions and clients keeps the registry invariant |
| Registry.PublishedHostsAreLive | src/rpc_provider.cpp:67-93 | in every reachable state the host stored for S.M is that of a provider serving S.M whose session is open and owns the entry |
| Registry.EntriesAreStable | src/zookeeper/zookeeper_cli.cpp:82-100 | an entry never changes or disappears before the session that wrote it closes |
| Registry.FinishedTaskHasNode | src/zookeeper/zookeeper_cli.cpp:82-100 | whoever wins the race, after createNode in an open session the node is there |
| Registration.WalkIsComplete | src/rpc_provider.cpp:67-93 | in whatever order the two maps are walked, run comes to createNode for every service and for every method of it |
| Registration.EveryMethodWasCreated | src/rpc_provider.cpp:67-93 | in all runs a provider that is through with run, its session open, has finished a createNode for every method it serves, with a node at the path after it |
| Registration.RegisteredIff | src/zookeeper/zookeeper_cli.cpp:82-100 | in all runs a provider that is done with a method owns its entry for the rest of its session if and only if it came to zoo_create and nothing was at the path, and never otherwise |
| Registration.LoserStaysUnregistered | src/zookeeper/zookeeper_cli.cpp:87-99 | a provider done with a method without the entry never gets it, whatever anybody does afterwards |
| Registration.LoserOutlivesWinner | src/rpc_provider.cpp:67-93 | a run of two providers after which the loser is open and serves the method, no entry is there, and no further run brings its entry |
| Registry.HostSurvives | src/zookeeper/zookeeper_cli.cpp:102-123 | a host that fits the buffer is read back unchanged exactly when it has no NUL |
| Discovery.LookupGetsWhatIsThere | src/zookeeper/zookeeper_cli.cpp:102-123 | whatever others do between the two requests, getNodeData goes on to zoo_get exactly when the path was there, and gets what is stored there then, or nothing |
| Discovery.LookupIsCurrent | src/zookeeper/zookeeper_cli.cpp:102-123 | a successful zoo_get yields the host of a provider that serves the method and whose session is open at that moment, for hosts shorter than 128 bytes |
| Discovery.HandledIffServed | src/rpc_provider.cpp:153-170 | a provider invokes a framed call with its arguments exactly when it serves the method; exactly when the service or the method is unknown it is refused for that |
| Discovery.CallsReachTheirMethod | src/rpc_channel.cpp:76-99 | as long as the session found at the lookup stays open and open providers have distinct hosts shorter than 128 bytes, whoever listens at the host the client holds is that provider and resolves the framed call |
| Discovery.ClosedSessionMisleads | src/rpc_provider.cpp:153-170 | a run after which the provider at the host the client holds does not know the service, the session being closed |
| Discovery.SharedHostMisleads | src/rpc_provider.cpp:62-65 | the same with the session still open and two providers at one host |
| QueueProtocol.InvStep | include/muduo/base/BoundedBlockingQueue.h:30-66 | every step of every kind of queue keeps the ownership, contents and wakeup invariants |
| QueueProtocol.RunsAreFifo | include/muduo/base/BoundedBlockingQueue.h:30-66 | over all interleavings taken items are a prefix of put items, the queue is the rest, the capacity holds, and the asserts after both loops are true |
| QueueHistory.ReturnsAreFifo | include/muduo/base/BoundedBlockingQueue.h:30-66 | over all interleavings: the items handed to put, in the order of the pushes, are those returned to callers, those about to be returned, and the queue |
| QueueHistory.CallsReturnTheirItems | include/muduo/base/BlockingQueue.h:31-69 | in all runs a put pushes its item exactly once, a take returns the oldest item no call has returned before, and a drain all that was put and not returned |
| QueueHistory.NothingIsExcluded | include/muduo/base/BlockingQueue.h:31-69 | in every run whoever has returned may make any call, whoever waits for the free mutex may be the next to get it, and sleepers may wake unasked |
| QueueHistory.LogNotifiesOutside | include/log/log_queue.h:36-42 | a run in which another thread is inside the mutex before the notify of a push |
| QueueProtocol.RunsExclude | include/muduo/base/BlockingQueue.h:31-69 | at most one thread is inside the mutex |
| QueueProtocol.RunsLoseNoWakeup | include/log/log_queue.h:36-55 | in every state a sleeping taker means no more items than takers on their way plus notifies still to come, and a sleeping putter the same of free slots and putters; with the mutex free only LogQueue has notifies still to come |
| QueueProtocol.RestIsJustified | include/muduo/base/BlockingQueue.h:46-58 | when everything has come to rest, sleeping takers face an empty queue, and sleeping putters a bounded one that holds as many items as its capacity |
| QueueProtocol.DeadlockIffNoCapacity | include/muduo/base/BoundedBlockingQueue.h:22-66 | putters and takers can all be asleep at once exactly when the capacity is zero |
| QueueProtocol.WorkIsEnabled | include/muduo/base/BoundedBlockingQueue.h:30-66 | as long as a thread is neither idle nor asleep, some step other than a new call or a spurious wakeup is enabled |
| QueueProtocol.RunsComeToRest | include/muduo/base/BoundedBlockingQueue.h:30-66 | from every reachable state only so many steps follow without new calls and spurious wakeups, and when none can any more all threads are idle or asleep, takers only on an empty queue and putters only on a full one |
| QueueProtocol.RestIsReached | include/muduo/base/BlockingQueue.h:31-69 | from every such state some steps lead to rest |
| LoggerProtocol.LogIsPrefixOfMessages | src/log/logger.cpp:18-50 | the log is always the concatenation of a prefix of the pushed messages and never passes the first empty one, before which it is complete once the writer stops |
| LoggerProtocol.PoppedIsWritten | src/log/logger.cpp:40-46 | in every reachable state a popped message is the next one to be written, and the next step appends it and goes back to pop, or stops at the empty one |
| LoggerProtocol.LogComesToRest | src/log/logger.cpp:18-50 | from every reachable state only so many steps follow without new messages and spurious wakeups, and when none can any more the log holds every message before the first empty one |
| LoggerProtocol.LogGetsComplete | src/log/logger.cpp:18-50 | from every such state some steps lead there |
| LoggerProtocol.MessagesAreThoseLogged | include/log/log_queue.h:36-42 | what is queued and logged is what the callers handed over, in the order of their pushes |
| LoggerProtocol.RestedLogIsComplete | include/log/log_queue.h:36-55 | when everything has come to rest with the writer waiting, every pushed message has been written |
| Monitor.HolderIsAccurate | include/muduo/base/Mutex.h:137-195 | a non-zero holder_ names the pthread owner, isLockedByThisThread is true exactly inside the caller's guarded section, and holder_ is 0 when nobody owns the mutex |
| QueueOnMonitor.StepIsMonitorRun | include/muduo/base/Condition.h:30-42 | each queue step is a sequence of mutex operations between the same states |
| QueueOnMonitor.QueueBodiesAreLocked | include/muduo/base/Mutex.h:207-224 | in every run of put, take and drain, assertLocked holds for exactly the thread inside |
| Buffers.Buffer.Retrieve | include/muduo/net/Buffer.h:113-124 | drops bytes from the front, and starts over at offset 8 when nothing is left |
| Buffers.Buffer.RetrieveAllAsString | include/muduo/net/Buffer.h:159-170 | returns all readable bytes, leaves none and starts over at offset 8 |
| Buffers.Buffer.Unwrite | include/muduo/net/Buffer.h:215-219 | drops bytes from the end |
| Buffers.Buffer.MakeSpace | include/muduo/net/Buffer.h:390-409 | grows or moves left in place, as the room decides, without changing the contents, within the space bound |
| Buffers.Buffer.EnsureWritableBytes | include/muduo/net/Buffer.h:194-201 | leaves the contents alone, makes the room, and keeps the array below max(8+1024, 8+initial, 2D+6) for the largest demand D seen |
| Buffers.Buffer.Append | include/muduo/net/Buffer.h:182-187 | extends the contents at the end |
| Buffers.Buffer.Prepend | include/muduo/net/Buffer.h:354-360 | extends the contents at the front |
| Buffers.Buffer.Shrink | include/muduo/net/Buffer.h:362-369 | keeps the contents and leaves the reserve writable, within the space bound |
| Buffers.BoundIsReached | include/muduo/net/Buffer.h:390-396 | for every n some run ends with exactly 2D+6 bytes |
| Buffers.SpaceBoundIs | include/muduo/net/Buffer.h:45-49 | the bound in numbers |
| Bytes.NetworkOrder | include/muduo/net/Endian.h:29-57 | hostToNetwork leaves the big-endian bytes in memory and networkToHost reads them back |
| Buffers.BytesOfInt | include/muduo/net/Buffer.h:224-248 | each byte of an integer on the wire: two's complement, most significant byte first |
| Buffers.Buffer.PeekInt | include/muduo/net/Buffer.h:290-323 | the value is the two's-complement big-endian value of the first bytes |
| Buffers.Buffer.PrependInt | include/muduo/net/Buffer.h:328-352 | the big-endian bytes come in front of the contents |
| Buffers.IntRoundTrip | include/muduo/net/Buffer.h:224-248 | an integer of any width is the big-endian value of the bytes it is written as |
| Buffers.AppendThenRead | include/muduo/net/Buffer.h:224-284 | whatever the buffer held, any sequence of integers of mixed widths is read back equal and in order, and the bytes behind it stay |
| BufferStream.BufferOutputStream.Next | include/muduo/net/protobuf/BufferStream.h:25-32 | grants at least 4096 bytes behind what was written, which stays as it was even when the buffer moves or grows |
| BufferStream.BufferOutputStream.BackUp | include/muduo/net/protobuf/BufferStream.h:34-37 | gives back the last bytes granted |
| BufferStream.BufferOutputStream.ByteCount | include/muduo/net/protobuf/BufferStream.h:39-42 | bytes granted minus bytes backed up |
| BufferStream.Emit | include/muduo/net/protobuf/BufferStream.h:25-42 | writing through Next and BackUp leaves the old contents followed by exactly the bytes written |
| Ini.PaddedLine | src/rpc_config_parse.cpp:16-71 | spaces around key and value and a carriage return at the end change nothing |
| Ini.PlainLineIff | src/rpc_config_parse.cpp:42-70 | key=value means that pair exactly when key and value are words, the key has no '=' and starts no comment, and neither ends in a carriage return |
| Ini.SkippedIff | src/rpc_config_parse.cpp:36-61 | a line is ignored exactly when it is blank, a comment, without '=', or has only a carriage return before it |
| Ini.Parse | src/rpc_config_parse.cpp:26-75 | the getline loop returns false for the empty text and otherwise what Means says of the lines: old keys kept, first bindings, and how it ended |
| Ini.LinesIff | src/rpc_config_parse.cpp:34 | for every text: getline yields exactly the lines without line feed that, each followed by one, make up the text, where the last may lack it unless it is empty |
| Ini.Characters | src/rpc_config_parse.cpp:36-66 | the characters compared with are space, #, =, carriage return and line feed |
| Ini.SplitLineIff | src/rpc_config_parse.cpp:42-70 | a line with a '=' that is no comment calls back() on an empty string, throws, is ignored or binds the first word on the left to that on the right, each exactly when its two sides say so |
| Ini.KeysWithoutValue | src/rpc_config_parse.cpp:57-70 | key= is undefined, key= and a space throws, and key= and a carriage return binds the empty value |
| Ini.LineMeaning | src/rpc_config_parse.cpp:34-71 | for every line, what becomes of it is read off the line |
| Ini.FirstBindingWins | src/rpc_config_parse.cpp:31-75 | for the lines of every text and every old map: old keys keep their values, every other key gets its first binding before the first line that cannot be read, and the result says whether any item is there or how it got stuck |
| Ini.PrintedMapIsReadBack | src/rpc_config_parse.cpp:26-75 | printing a map of plain keys and values in any order and parsing it gives the map back |
| Endpoints.StoiOfDecimal | src/rpc_channel.cpp:94 | a printed port is read back |
| Endpoints.StoiIff | src/rpc_channel.cpp:94 | for every text: stoi accepts it exactly when it begins, after white space, with a number that fits 32 bits, and gets that number |
| Endpoints.ListensWhere | example/callee/test_callee.cpp:54-58 | where the provider listens, for every configuration, with the port modulo 65536 |
| Endpoints.DecimalPort | src/rpc_channel.cpp:87-94 | a decimal port below 65536 is that port at both ends |
| Endpoints.EndpointsAgreeIff | src/rpc_channel.cpp:87-94 | for every configuration the client reaches what the provider listens on exactly when the ip has no colon and the port is a text that stoi accepts |
| Endpoints.ColonIsMisread | src/rpc_channel.cpp:87-94 | with an ip that has a colon the provider listens and no client connects |
| Endpoints.IntPortIsNotPublished | include/rpc_config.h:55-91 | a port stored as an int is listened on but published as nothing |
| Endpoints.ConfigIsWhatFileSays | src/rpc_config.cpp:80-107 | a loaded key has a value exactly when the file, up to its first NUL, binds it first to that |
| Endpoints.DefaultLayout | src/rpc_config_parse.cpp:34-71 | a file with a comment, the ip, a comment, the port and anything after that says that ip and that port |
| Endpoints.DefaultConf | default_conf.ini:1-10 | the default file, whatever its comments and the rest: the provider listens at 192.168.77.136:8000, publishes that text, and a client connects there |
| Endpoints.ConfiguredAddressSurvives | src/rpc_provider.cpp:62-65 | for every file whose first bindings are this ip and port and fit the registry: published, stored and read back they lead to where the provider listens exactly when the ip has no colon and stoi accepts the port |
| Endpoints.ConfiguredAddressIsCalled | src/rpc_channel.cpp:80-99 | the same in every run of the registry, for the client that looked a method up and the open provider whose entry it got, whatever is in the files, for published hosts shorter than 128 bytes |

## Left out

- Sockets, EventLoop, TcpServer, TcpClient, TcpConnection and Channel: a delivery is the bytes handed to onMessage.
- The ZooKeeper library and protobuf's own runtime are not part of this repository: the tree with ephemeral nodes and the readers of the wire format are modelled from their documentation. zoo_exists answers found or ZNONODE in an open session; deleteNode has no caller.
- Registry.HostSurvives: does not cover hosts of 128 bytes or more, which leave getNodeData's buffer without a terminator.
- Discovery.LookupIsCurrent: for such hosts the model stops at 128 bytes where the code reads on, so it says nothing about them.
- Discovery.CallsReachTheirMethod: the same.
- Framing.FramesAreDispatched: does not say what is dispatched of 4 GiB and more (Framing.FramesAreDrainedIff says that it is not drained); cuts inside a frame have their own rows.
- Cuts.CutsAreHarmlessIff: does not say for headers of 32 KiB and more whether a cut inside a frame can be made up for by later frames; for one frame Cuts.NoCutOfAFrameIsHarmless has no such bound, nor has Cuts.OnTimeIffCutAtBoundaries.
- Provider.Provide.OnMessage: a call that never returns is an outcome, reached when an offset comes back; the code goes round for ever.
- Parsing the arguments of a request and calling the service: the model stops at the method found.
- The response direction: the reply passes through a C string.
- Request, CalcRequest and CalcResponse: the same generator with easier fields.
- ResponseObject.Response.MergeFrom: merges the fields in another order than the code; they do not depend on each other.
- QueueProtocol.RunsLoseNoWakeup: does not cover LogQueue's destructor, which sets its flag without the mutex.
- QueueProtocol.InvStep: the section between lock and unlock is split where the code waits, pushes, pops or notifies, and not further; size, empty, full and capacity only read.
- LoggerProtocol.LogIsPrefixOfMessages: does not model the choice of the file by date and path, or a failure to open it.
- Ini.Parse: where the code calls back() on an empty string, which C++ leaves undefined, the model stops with its own outcome.
- BufferStream.BufferOutputStream.Next: asks for a buffer that stays below 2 GiB, because the size it returns is an int.
- Buffers.Buffer.Shrink: asks for less than 2 GiB of contents, because the copy's length is an int.
- Buffers.Buffer.AppendInt and its siblings take the width as an argument where the code has one method per width; findCRLF, findEOL, readFd and swapping two buffers from outside are left out of the space bound.
- RpcConfig::set, file loading, log macros and levels, controllers, command line and the JSON and YAML stubs: only easy claims.
