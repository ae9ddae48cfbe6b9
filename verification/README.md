# A verified model of the OTLP exporters and the entity detector of opentelemetry-cpp

This project models, in Dafny, the parts of opentelemetry-cpp whose correctness spans several functions and
every interleaving of threads, and proves what they keep.

| module | what it models |
|---|---|
| `HttpSessions`, `HttpFlush`, `HttpClient` | sessions of the OTLP/HTTP client from creation to cleanup: the step system of every thread and of the transport, and the client as an object whose methods perform runs of it |
| `GrpcRequests`, `GrpcFlush`, `GrpcClient` | the three counters, the running calls and the concurrency limit of the asynchronous gRPC client |
| `GrpcReferences` | reference guards of exporters that share one gRPC client |
| `ForwardProxy` | loop detection in a network of gRPC forward proxies |
| `FileRing`, `FileBackend`, `FlushRace` | the rotating file backend: what the ring of files contains, and the exporter racing the background flusher |
| `PathFormat`, `SplitPath` | file name patterns and path normalisation |
| `ProtoJson`, `Base64`, `Numerals` | the conversion of protobuf messages to JSON values, and its inverse |
| `Common` | bytes and export results |
| `AsciiText`, `EntityParser`, `EntityGrammar`, `EntityPrinter`, `EntityIdentity`, `EntityMerge` | the OTEL_ENTITIES variable: parsing, identity keys, merging |

**How concurrency is modelled.** One `Action` is one atomic operation or one lock region. `Step` is total: an
action that is not enabled does nothing, so `Run` over all sequences of actions ranges over every interleaving,
with duplicate and late events included. The classes' methods are the code's own bodies; where the code lets go
of its locks, the caller passes the actions that others perform meanwhile, and the method's contract says which
run of the step system the call was. A wait is a sequence of rounds; a loop that needs more rounds than it is
given answers `Waiting` (or `false`), so every outcome that is reported holds for all lengths of the wait.

**What turned out not to hold as one might expect**, each with a run or an input, and with the condition under
which it does hold:

- A flush of the HTTP client can be overtaken: a session that starts after the snapshot makes up for one that is
  still running (`HttpSessions.OvertakenFlush`). From a given state no run can do this if and only if nothing
  is outstanding or the client is shut down with no session on its way in (`HttpFlush.FlushPromise`).
- The gRPC client can be overtaken too (`GrpcRequests.OvertakenFlush`): from a reachable state no run can do this
  if and only if every request counted as started is counted as finished, or the client is shut down with no
  request between the check of that flag and being counted (`GrpcFlush.FlushPromise`). It also
  counts a request as finished before its callback has run (`GrpcRequests.FlushBeforeCallback`); an unovertaken
  true flush means that the callbacks have run if and only if they all had run before it
  (`GrpcFlush.CallbackPromise`).
- The gRPC concurrency limit is checked before it is counted against: T threads can exceed it by T - 1, and no
  more (`GrpcRequests.EveryInterleaving`, `GrpcRequests.LimitOvershot`).
- A gRPC client can be shut down under an exporter that took its reference between the last release and the
  shutdown (`GrpcReferences.NewcomerShutDown`, from every state `GrpcReferences.NewcomersBreak`). A run is free of
  this if and only if nobody takes a reference after somebody has released the last one by Shutdown
  (`GrpcReferences.SafeIfTimely`); newcomers that come earlier do no harm.
- No network of forward proxies keeps a request going round, whatever their ids (`ForwardProxy.NoRepeats`). Active
  proxies detect loops exactly if and only if none that passes requests on shares its id, up to case, with another
  active one (`ForwardProxy.DetectionExact`), and a loop is reported to the originator if and only if the request
  has passed synchronous proxies only (`ForwardProxy.LoopReportedExactly`).
- A proxy answers a delegated failure with ABORTED, which its comment says must not be retried and which the
  sender's channel does retry (`ForwardProxy.FailuresRetried`).
- A file flush answers true without anything being durable when there is no background thread, which also
  happens when the thread leaves after an idle minute (`FlushRace.TrueWithoutThread`,
  `FlushRace.TrueAfterIdleExit`). True means durable in every run if and only if the records are durable at the
  call or the flusher is past its checks and about to flush (`FlushRace.FlushPromise`).
- Identity keys of entities do not escape values. A key belongs to one entity only if and only if there is a
  single attribute whose value hides no further one (`EntityIdentity.KeyUnique`); among entities whose values have
  no `=` behind a comma they are unambiguous (`EntityIdentity.KeyInjective`).
- The file name directives `%j` and `%I` never agree with strftime (`PathFormat.NeverStandard`), and the length of
  a path is beyond its buffer exactly when the buffer ends inside a rotation index (`PathFormat.FormatPath`).

## Model

| member | source | states |
|---|---|---|
| `HttpSessions.Verdict` | exporters/otlp/src/otlp_http_client.cc:110-165 | only a 2xx response whose wanted body parses counts as a success, and only the five states on the way to a response leave the request open |
| `HttpSessions.ProgressIgnored` | exporters/otlp/src/otlp_http_client.cc:188-207 | any number of states on the way to a response leaves everything as it is |
| `HttpSessions.FirstVerdict` | exporters/otlp/src/otlp_http_client.cc:180-357 | behind any such progress a session that was sent and is open claims a success for an accepted response, a failure for any other response and for each of the ten failing states, and nothing for the rest |
| `HttpSessions.StepInv` | exporters/otlp/src/otlp_http_client.cc:349-383 | every step of every thread and of the transport keeps the order of a session's stages, one callback per claimed session with the verdict that won, running = added - released, both counters, and each released session in exactly one of gc, batch and closed |
| `HttpSessions.ReleaseInv` | exporters/otlp/src/otlp_http_client.cc:891-915 | a handler that releases always finds its session in the running map |
| `HttpSessions.Conservation` | exporters/otlp/src/otlp_http_client.cc:1063-1084 | finished + running = started + sessions inserted but not yet counted, and finished never exceeds started |
| `HttpSessions.EveryInterleaving` | exporters/otlp/src/otlp_http_client.cc:891-915 | after any run: that balance, running disjoint from everything discarded, and each finished session's callback has been called exactly once with its verdict, whatever events came twice or late |
| `HttpSessions.ClaimOrigin` | exporters/otlp/src/otlp_http_client.cc:349-357 | the verdict that wins the exchange was brought by an event of that very session |
| `HttpSessions.SuccessIsAccepted` | exporters/otlp/src/otlp_http_client.cc:110-165 | no callback is told of a success unless an accepted response was delivered to its own session |
| `HttpSessions.RunLater` | exporters/otlp/src/otlp_http_client.cc:891-915 | counters, added, counted, released and closed sessions only grow along a run |
| `HttpSessions.EmptyMeansReported` | exporters/otlp/src/otlp_http_client.cc:790-812 | when the running map is seen empty, the shared result of every session added before holds the verdict of that session's own handler, reported once |
| `HttpSessions.EmptyMeansFlushed` | exporters/otlp/src/otlp_http_client.cc:835-843 | leaving the flush loop because nothing runs means finished has reached the snapshot |
| `HttpSessions.FlushDeficit` | exporters/otlp/src/otlp_http_client.cc:863-866 | a flush that answers true misses at most as many sessions as have started later and finished |
| `HttpSessions.FlushComplete` | exporters/otlp/src/otlp_http_client.cc:815-867 | with no later start, true means every counted session was released and its callback ran once |
| `HttpSessions.OvertakenFlush` | exporters/otlp/src/otlp_http_client.cc:815-867 | a run in which a flush answers true with a session counted before it still running |
| `HttpFlush.FlushPromise` | exporters/otlp/src/otlp_http_client.cc:815-867 | a flush keeps its promise in every run from a state if and only if nothing is outstanding there or nobody can come any more |
| `HttpFlush.CompletionRun` | exporters/otlp/src/otlp_http_client.cc:359-383 | wherever a counted session stands, it can be released without touching any other |
| `HttpSessions.NoInsertAdded` | exporters/otlp/src/otlp_http_client.cc:1063-1084 | without insertions the added sessions stay the same and the running ones only shrink |
| `HttpSessions.Quiescent` | exporters/otlp/src/otlp_http_client.cc:718-748 | with running, gc and batch empty, every session ever added was finished by a cleanup exactly once and reported exactly once |
| `HttpClient.OtlpHttpClient.AddSession` | exporters/otlp/src/otlp_http_client.cc:1063-1084 | inserts, counts, sends, in this order, whatever others do in between |
| `HttpClient.OtlpHttpClient.ReleaseSession` | exporters/otlp/src/otlp_http_client.cc:891-915 | moves a running session to gc and counts it; leaves everything alone for any other session |
| `HttpClient.OtlpHttpClient.Unbind` | exporters/otlp/src/otlp_http_client.cc:359-383 | the callback runs once with the winning verdict before the session is released |
| `HttpClient.OtlpHttpClient.CleanupGCSessions` | exporters/otlp/src/otlp_http_client.cc:1086-1102 | finishes everything swapped out, whatever happens before each FinishSession; answers whether the list has refilled, which it cannot when nothing runs and nobody inserts |
| `HttpClient.OtlpHttpClient.CreateSession` | exporters/otlp/src/otlp_http_client.cc:917-1042 | a session is created exactly when the request is well-formed and the client is not shut down, and its shared result starts as a success, with no callback made; otherwise the callback is told of the failure at once and nothing changes |
| `HttpClient.OtlpHttpClient.AwaitRunning` | exporters/otlp/src/otlp_http_client.cc:790-797 | true exactly when the running sessions are within the allowance at the start or at some wake-up; it stops there, and answers false only after the last wake-up |
| `HttpClient.OtlpHttpClient.Export` | exporters/otlp/src/otlp_http_client.cc:751-813 | a synchronous export that saw the wait succeed returns the verdict of its own session's handler, called exactly once; a refused one fails and tells the callback so once; the wait fails exactly when too many sessions run at its start and at every wake-up; an asynchronous export otherwise succeeds |
| `HttpClient.SettledResult` | exporters/otlp/src/otlp_http_client.cc:759-813 | once nothing runs, the result of a session added before is settled for all later runs |
| `HttpClient.OtlpHttpClient.ForceFlush` | exporters/otlp/src/otlp_http_client.cc:815-867 | true exactly when finished has reached the snapshot; it waits through a round exactly while time is left, something runs and the snapshot is not seen; it expires only when the timeout is used up, for one that is not positive the whole range of the clock; leaving early always yields true; with no later start all callbacks have run |
| `HttpClient.OtlpHttpClient.Shutdown` | exporters/otlp/src/otlp_http_client.cc:869-889 | the client refuses sessions afterwards, the flush waits as a flush does, true means the snapshot of the shutdown was reached; the cleanup loop ends with the first cleanup that finds nothing new, and then every released session has been finished exactly once |
| `HttpClient.OtlpHttpClient.Destroy` | exporters/otlp/src/otlp_http_client.cc:718-748 | it waits through rounds exactly while something runs and cleans up until a cleanup finds nothing new; then, if nobody can insert a session any more, running and gc are empty and every session ever added, also after Shutdown and while the destructor waits, was released once, reported once and finished once by a cleanup |
| `HttpClient.InsertionOver` | exporters/otlp/src/otlp_http_client.cc:998-1012 | from a state no run can insert a session if and only if the client is shut down and every session created has been inserted |
| `HttpClient.IdleGc` | exporters/otlp/src/otlp_http_client.cc:1086-1102 | with nothing running and nobody inserting the cleanup list stays empty |
| `GrpcRequests.RunInv` | exporters/otlp/src/otlp_grpc_client.cc:174-232 | every run keeps the three balances, each call in one place, and the bound on running requests |
| `GrpcRequests.EveryInterleaving` | exporters/otlp/src/otlp_grpc_client.cc:209-232 | start = finished + running + calls between paired updates; with T threads running is at most the limit + T - 1, and zero for a limit of zero; running = calls in the set + calls before insertion and after erasure |
| `GrpcRequests.LimitOvershot` | exporters/otlp/src/otlp_grpc_client.cc:174-186 | for every limit and every set of threads there is a run that reaches that bound, which is zero for a limit of zero |
| `GrpcRequests.FlushComplete` | exporters/otlp/src/otlp_grpc_client.cc:732-769 | a true flush with no later start leaves no request running, in the set, or between counters |
| `GrpcRequests.FlushBeforeCallback` | exporters/otlp/src/otlp_grpc_client.cc:231-250 | a run in which that flush answers true before the callback of a request has run |
| `GrpcRequests.OvertakenFlush` | exporters/otlp/src/otlp_grpc_client.cc:732-769 | a run in which a later request makes a flush answer true with the earlier one in flight |
| `GrpcFlush.FlushPromise` | exporters/otlp/src/otlp_grpc_client.cc:732-769 | from a reachable state a flush answers true in every run only when all requests counted at the call have finished, if and only if they had finished at the call or the client is shut down with nobody between the check of the flag and being counted |
| `GrpcFlush.Unovertaken` | exporters/otlp/src/otlp_grpc_client.cc:783-788 | a flush of a client that nobody can enter any more answers true only when all requests ever counted have finished |
| `GrpcFlush.CallbackPromise` | exporters/otlp/src/otlp_grpc_client.cc:231-250 | a true flush with no later start means in every run that all callbacks have run, if and only if they had all run at the call |
| `GrpcFlush.InFlightSize` | exporters/otlp/src/otlp_grpc_client.cc:209-232 | the calls begun and not finished, including those not yet counted as running, are as many as the two counters differ |
| `GrpcFlush.FinishRun` | exporters/otlp/src/otlp_grpc_client.cc:209-232 | wherever a call in flight stands, it can be counted as finished without touching any other call or thread |
| `GrpcClient.AsyncData.DelegateAsyncExport` | exporters/otlp/src/otlp_grpc_client.cc:608-632 | refused exactly when the client is shut down at the call or the limit is reached at the check behind it, and then the callback is told so once; otherwise the call has been handed to the stub, whatever others do, and the wait behind it ends at the first wake-up with room or at the last |
| `GrpcClient.AsyncData.Shutdown` | exporters/otlp/src/otlp_grpc_client.cc:783-810 | the flag is on, the answer is that of the flush, the calls in the running set are cancelled; with no request on its way in at the call, true means that nothing is in flight and nothing is cancelled |
| `GrpcClient.AsyncData.ForceFlush` | exporters/otlp/src/otlp_grpc_client.cc:723-773 | true exactly when finished has reached the start counter of the call; it waits through a round exactly while time is left and requests are missing, and false means that the timeout is used up, for one that is not positive the whole range of the clock; with no later start nothing is in flight |
| `GrpcClient.AsyncData.AwaitIdle` | exporters/otlp/src/otlp_grpc_client.cc:302-309 | the destructor's wait ends at the first wake-up with no request counted as running, and then no running call is left; requests between two counters are accounted for |
| `GrpcClient.ForeignKeeps` | exporters/otlp/src/otlp_grpc_client.cc:209-223 | others do not move a thread, nor its call before it is handed to the stub |
| `GrpcReferences.StepInv` | exporters/otlp/src/otlp_grpc_client.cc:569-596 | every step keeps guard, reference and release of each exporter in line with its position; a decrement reaches zero exactly when it is listed as doing so |
| `GrpcReferences.EveryInterleaving` | exporters/otlp/src/otlp_grpc_client.cc:775-785 | under every interleaving the count is the number of references held, each exporter that has left has released exactly once, and at most one turns the shutdown flag on, one that left by Shutdown and whose release hit zero |
| `GrpcReferences.ClosedGroup` | exporters/otlp/src/otlp_grpc_client.cc:775-817 | for a group without newcomers the flag implies that no reference is held, and once all are gone it is on exactly when the last release came from a Shutdown |
| `GrpcReferences.NewcomersBreak` | exporters/otlp/src/otlp_grpc_client.cc:783-785 | from every state there is a run with newcomers in which the client is shut down while a reference is held |
| `GrpcReferences.SafeExactly` | exporters/otlp/src/otlp_grpc_client.cc:775-817 | for a complete group the client is never shut down under a reference in any run, if and only if newcomers are excluded |
| `GrpcReferences.SafeIfTimely` | exporters/otlp/src/otlp_grpc_client.cc:569-596 | in a run, with any number of newcomers, no reference is ever held to a client that is shut down or about to be, if and only if nobody takes a reference after a release that decides to shut it down |
| `GrpcReferences.NewcomerShutDown` | exporters/otlp/src/otlp_grpc_client.cc:783-785 | a run in which the client is shut down while a newcomer holds a reference |
| `GrpcReferences.OtlpGrpcClient.AddReference` | exporters/otlp/src/otlp_grpc_client.cc:569-576 | counts each guard once, however often it is added; for a new exporter it performs the two steps of taking a reference |
| `GrpcReferences.OtlpGrpcClient.RemoveReference` | exporters/otlp/src/otlp_grpc_client.cc:578-596 | uncounts each guard once, and answers whether no reference is left; it performs the two steps of giving a reference back |
| `GrpcReferences.OtlpGrpcClient.Shutdown` | exporters/otlp/src/otlp_grpc_client.cc:775-817 | turns the flag on only when no reference is left, says whether it did so itself, answers what its flush answered, and performs the steps of giving back and deciding |
| `GrpcReferences.OtlpGrpcExporter.constructor` | exporters/otlp/src/otlp_grpc_exporter.cc:61-70 | takes exactly one reference, by the steps of a newcomer |
| `GrpcReferences.OtlpGrpcExporter.Shutdown` | exporters/otlp/src/otlp_grpc_exporter.cc:227-239 | gives the reference back the first time, by the steps of an exporter that shuts down, and hands on the client's answer; afterwards does nothing to the client and answers true |
| `GrpcReferences.OtlpGrpcExporter.Destroy` | exporters/otlp/src/otlp_grpc_exporter.cc:83-89 | gives back a reference that is still held, by the steps of an exporter that is destroyed, and never shuts the client down |
| `ForwardProxy.AsciiToLower` | exporters/otlp/src/otlp_grpc_forward_proxy.cc:87-91 | the wrap-around and the bit trick lower-case the 26 capitals and leave all other bytes alone |
| `ForwardProxy.AsciiStrIEq` | exporters/otlp/src/otlp_grpc_forward_proxy.cc:93-106 | true exactly when the bytes before the first NUL agree up to case |
| `ForwardProxy.CheckForLoop` | exporters/otlp/src/otlp_grpc_forward_proxy.cc:108-128 | a loop exactly when an entry of the id header carries its own id; otherwise the context carries the received ids in order and then its own |
| `ForwardProxy.LoopsByEntry` | exporters/otlp/src/otlp_grpc_forward_proxy.cc:111-121 | an id is among the received ids exactly if an entry of the id header carries it |
| `ForwardProxy.IdsConcat` | exporters/otlp/src/otlp_grpc_forward_proxy.cc:111-114 | the ids of a request are those of its entries, in order |
| `ForwardProxy.OthersIgnored` | exporters/otlp/src/otlp_grpc_forward_proxy.cc:111-112 | an entry of another header, wherever it stands, makes no difference |
| `ForwardProxy.IdsOfTagged` | exporters/otlp/src/otlp_grpc_forward_proxy.cc:111-126 | the next proxy reads exactly the ids that were sent |
| `ForwardProxy.Finish` | exporters/otlp/src/otlp_grpc_forward_proxy.cc:169-214 | an inactive proxy answers FAILED_PRECONDITION, a given status is passed on, and each delegated result has a status of its own |
| `ForwardProxy.FailuresRetried` | exporters/otlp/src/otlp_grpc_forward_proxy.cc:180-199 | delegated failures are answered with statuses that the sender's channel retries, full queue or not; invalid arguments are not |
| `ForwardProxy.FinalStatuses` | exporters/otlp/src/otlp_grpc_client.cc:430-437 | which statuses the channel takes for final |
| `ForwardProxy.NamedAfter` | exporters/otlp/src/otlp_grpc_forward_proxy.cc:241-254 | each forwarding leaves fewer proxies that the headers do not name; this is what makes the answer of a network a total function |
| `ForwardProxy.LoopExactly` | exporters/otlp/src/otlp_grpc_forward_proxy.cc:108-128 | with such ids an active proxy finds its id in a request exactly when the request has passed through it |
| `ForwardProxy.PassedLoops` | exporters/otlp/src/otlp_grpc_forward_proxy.cc:108-128 | whatever the ids, a proxy finds its own in a request that has passed through it |
| `ForwardProxy.NoRepeats` | exporters/otlp/src/otlp_grpc_forward_proxy.cc:241-254 | whatever the ids and the routing per hop and per retry, no proxy forwards a request twice, so chains are no longer than the network |
| `ForwardProxy.DetectionExact` | exporters/otlp/src/otlp_grpc_forward_proxy.cc:87-128 | detection is right at every active proxy for every routing, if and only if no proxy that passes requests on shares its id with another active one |
| `ForwardProxy.CaseCollision` | exporters/otlp/src/otlp_grpc_forward_proxy.cc:93-106 | two proxies whose ids differ in case only, one of which refuses a request it has not seen |
| `ForwardProxy.ChannelAnswer` | exporters/otlp/src/otlp_grpc_client.cc:430-437 | a channel answers what the first attempt was answered whose status is not retried |
| `ForwardProxy.ChannelGivesUp` | exporters/otlp/src/otlp_grpc_client.cc:426-437 | a channel whose every permitted attempt is retried answers what the last one was answered |
| `ForwardProxy.SyncCarriesBack` | exporters/otlp/src/otlp_grpc_forward_proxy.cc:241-254 | through synchronous proxies such a status reaches the originator unchanged from any distance and behind any number of retries |
| `ForwardProxy.LoopReported` | exporters/otlp/src/otlp_grpc_forward_proxy.cc:241-254 | whatever the ids, a loop found behind synchronous proxies is reported to the originator as FAILED_PRECONDITION |
| `ForwardProxy.AsyncHidesDownstream` | exporters/otlp/src/otlp_grpc_forward_proxy.cc:222-238 | an asynchronous proxy that queues the request has the originator told OK, whatever happens behind it |
| `ForwardProxy.LoopReportedExactly` | exporters/otlp/src/otlp_grpc_forward_proxy.cc:222-254 | whatever the ids, a loop is reported to the originator if and only if the request has passed synchronous proxies only |
| `FileRing.ChunksCover` | exporters/otlp/src/otlp_file_client.cc:998-1006 | the greedy split by size loses and reorders nothing |
| `FileRing.ChunksBounded` | exporters/otlp/src/otlp_file_client.cc:998-1035 | no chunk is larger than the limit or the largest message |
| `FileRing.SlotCycle` | exporters/otlp/src/otlp_file_client.cc:1345-1357 | the ring comes back to a slot after exactly as many chunks as there are slots |
| `FileRing.ShowsNext` | exporters/otlp/src/otlp_file_client.cc:998-1035 | rotating exactly when a non-empty file would outgrow the limit keeps slots, index and written size in step with the split, and the file within the limit or this message |
| `FileRing.RingIsSuffix` | exporters/otlp/src/otlp_file_client.cc:1345-1357 | read in ring order the files are the last chunks, a contiguous suffix of everything exported |
| `FileRing.RingBounded` | exporters/otlp/src/otlp_file_client.cc:1345-1357 | all files together are no larger than the number of slots times the larger of limit and largest message |
| `FileBackend.FileSystemBackend.Initialize` | exporters/otlp/src/otlp_file_client.cc:1129-1206 | starts in the first slot whose probed size is below the limit, in the first of all if there is none, and changes no content |
| `FileBackend.FileSystemBackend.OpenLogFile` | exporters/otlp/src/otlp_file_client.cc:1208-1292 | an open file is left alone; one opened for an export is emptied first; the written size is that of the file |
| `FileBackend.FileSystemBackend.RotateLog` | exporters/otlp/src/otlp_file_client.cc:1345-1357 | closes the file and moves to the next slot of the ring |
| `FileBackend.FileSystemBackend.MaybeRotateLog` | exporters/otlp/src/otlp_file_client.cc:998-1006 | rotates exactly when a non-empty file would outgrow the limit |
| `FileBackend.FileSystemBackend.Export` | exporters/otlp/src/otlp_file_client.cc:1008-1035 | keeps the ring in step with everything exported, and the current file within the limit or this message |
| `FileBackend.FileSystemBackend.Contents` | exporters/otlp/src/otlp_file_client.cc:998-1057 | between exports the files of the slots, found by their paths and read in ring order, are the last chunks of the split and a suffix of the whole stream |
| `FileBackend.FileSystemBackend.Size` | exporters/otlp/src/otlp_file_client.cc:998-1057 | between exports they are together no larger than the number of slots times the larger of limit and largest message |
| `FileBackend.SlotPaths` | exporters/otlp/src/otlp_file_client.cc:1219-1228 | a pattern without time fields that names the index, or has a single slot, gives every slot a path of its own at all times |
| `FileBackend.WriteOne` | exporters/otlp/src/otlp_file_client.cc:1023-1035 | where paths are distinct, writing a file changes the content of one slot only |
| `FlushRace.StepInv` | exporters/otlp/src/otlp_file_client.cc:1023-1053 | every step of exporter, flusher and shutdown keeps the counters below what is durable, the budget of unflushed records and the number of passes |
| `FlushRace.EveryInterleaving` | exporters/otlp/src/otlp_file_client.cc:1505-1522 | in every run flushed never exceeds durable, fewer than flush_count records are at risk after each export, and after shutdown the flusher makes at most one more pass |
| `FlushRace.Cadence` | exporters/otlp/src/otlp_file_client.cc:1037-1052 | with single records and no background thread the exporter flushes at the first record and at every flush_count-th behind it, no more and no less |
| `FlushRace.StaleStore` | exporters/otlp/src/otlp_file_client.cc:1506-1521 | a run from the start in which a stale store takes the flushed counter from two back to one |
| `FlushRace.ForceFlush` | exporters/otlp/src/otlp_file_client.cc:1059-1115 | ends after at most timeout + 1 passes for any clock, each taking off the whole microseconds that went by and at least one; every pass but the last saw the counter short and the thread alive; true means the last saw the records counted at the call durable or no thread, within the timeout; false means the timeout is used up |
| `FlushRace.FlushPromise` | exporters/otlp/src/otlp_file_client.cc:1059-1115 | a true flush means durable in every run, if and only if the records are durable at the call or the flusher is past its checks for shutdown and idleness and has not flushed yet |
| `FlushRace.ThreadlessFlush` | exporters/otlp/src/otlp_file_client.cc:1086-1095 | where no thread is registered the flush answers true at once, in the state it found |
| `FlushRace.TrueWithoutThread` | exporters/otlp/src/otlp_file_client.cc:1421-1426 | without a flush interval a flush answers true, for any timeout, and the record exported before it is not durable |
| `FlushRace.TrueAfterIdleExit` | exporters/otlp/src/otlp_file_client.cc:1462-1532 | a flush answers true, for any timeout, after the idle flusher has left over a record that is not durable |
| `PathFormat.FormatPath` | exporters/otlp/src/otlp_file_client.cc:157-447 | stores nothing outside its buffer; the text is a NUL-terminated prefix of the pure expansion and equals it whenever it fits; the answered length is beyond the buffer exactly when the buffer ends inside an index numeral |
| `PathFormat.TimeReads` | exporters/otlp/src/otlp_file_client.cc:189-395 | read as numerals of fixed width the time directives give back the fields of the time, by the code's own table |
| `PathFormat.IndexReads` | exporters/otlp/src/otlp_file_client.cc:399-425 | %N is the rotation index counted from zero and %n counted from one, without leading zeros |
| `PathFormat.UnknownStays` | exporters/otlp/src/otlp_file_client.cc:427-431 | any other character behind a % stands for itself |
| `PathFormat.LiteralStays` | exporters/otlp/src/otlp_file_client.cc:194-205 | text without % is its own expansion |
| `PathFormat.DirectiveReplaced` | exporters/otlp/src/otlp_file_client.cc:194-209 | behind literal text a directive is replaced and a % at the end is dropped |
| `PathFormat.NeverStandard` | exporters/otlp/src/otlp_file_client.cc:254-311 | the day of the year and the hour of twelve are never what strftime writes |
| `PathFormat.Composites` | exporters/otlp/src/otlp_file_client.cc:189-395 | %F, %T and %R expand like %Y-%m-%d, %H:%M:%S and %H:%M |
| `PathFormat.PathPerSlot` | exporters/otlp/src/otlp_file_client.cc:399-425 | the slots of a rotation have different paths if and only if there is only one or the pattern names the rotation index |
| `PathFormat.TimelessPath` | exporters/otlp/src/otlp_file_client.cc:1359-1364 | a pattern without time fields gives the same path at all times |
| `PathFormat.TimelessExactly` | exporters/otlp/src/otlp_file_client.cc:1166-1203 | a pattern gives the same paths at all times if and only if it has no time directive |
| `SplitPath.Split` | exporters/otlp/src/otlp_file_client.cc:539-580 | the loop computes the tokens between separators, or their normal form |
| `SplitPath.TokensOfJoin` | exporters/otlp/src/otlp_file_client.cc:539-580 | the tokens of two paths joined by a slash or a backslash are the tokens of the one and then of the other |
| `SplitPath.TokensClean` | exporters/otlp/src/otlp_file_client.cc:546-551 | tokens are not empty and contain neither slash nor backslash |
| `SplitPath.WholeToken` | exporters/otlp/src/otlp_file_client.cc:546-551 | text with neither of them is a single token |
| `SplitPath.NormalizeLaws` | exporters/otlp/src/otlp_file_client.cc:550-572 | a normal form has all ".." first and no ".", is a fixed point, and N(a + b) = N(N(a) + b) |
| `SplitPath.NormalizeSound` | exporters/otlp/src/otlp_file_client.cc:550-572 | a path and its normal form lead to the same directory from every start |
| `SplitPath.ResolveSteps` | exporters/otlp/src/otlp_file_client.cc:552-572 | a name leads down, .. leads up and stays at the root, . leads nowhere |
| `SplitPath.NormalFormIsMeaning` | exporters/otlp/src/otlp_file_client.cc:550-572 | two paths have the same normal form if and only if they lead to the same directory from every start |
| `Base64.EscapeInverse` | sdk/src/common/base64.cc:39-128 | unescaping what was escaped gives the bytes back, for every length |
| `Base64.Alphabet` | sdk/src/common/base64.cc:24-28 | the alphabet by character code |
| `Base64.TestVectors` | sdk/src/common/base64.cc:39-128 | the vectors of section 10 of RFC 4648 for one to three bytes |
| `Base64.EscapeInto` | sdk/src/common/base64.cc:39-128 | writes the encoding and a NUL exactly when both fit, and otherwise nothing but the size it needs |
| `Base64.Base64Escape` | sdk/src/common/base64.cc:130-158 | the encoding as a string, from a first call for the size and a second for the text |
| `Base64.HexEncode` | exporters/otlp/src/otlp_http_client.cc:420-431 | the loop writes two digits per byte, high one first |
| `Base64.HexInverse` | exporters/otlp/src/otlp_http_client.cc:420-431 | hexadecimal text can be read back |
| `Base64.HexDigits` | exporters/otlp/src/otlp_http_client.cc:420-431 | lower-case digits, two per byte, the high one first |
| `ProtoJson.ConvertMessage` | exporters/otlp/src/otlp_http_client.cc:473-493 | the loop over the set fields builds the JSON object of the message |
| `ProtoJson.ConvertField` | exporters/otlp/src/otlp_http_client.cc:575-691 | repeated fields become arrays in order, others single values |
| `ProtoJson.ConvertValue` | exporters/otlp/src/otlp_http_client.cc:507-573 | each type of value becomes its JSON value |
| `ProtoJson.EncodingRules` | exporters/otlp/src/otlp_http_client.cc:433-493 | names by option, 64-bit numbers as text, bytes by mapping, repeated fields as arrays in order, a message without fields as null |
| `ProtoJson.FileIsHttp` | exporters/otlp/src/otlp_file_client.cc:712-950 | the file converter equals the HTTP one at camel-case names with hexadecimal ids, for all message trees |
| `ProtoJson.MessageRoundTrip` | exporters/otlp/src/otlp_http_client.cc:420-691 | every message of a schema with distinct member names is read back from its JSON value, for all options |
| `ProtoJson.EncodingInjective` | exporters/otlp/src/otlp_http_client.cc:420-691 | no two messages of a type have the same JSON value |
| `AsciiText.Trim` | api/include/opentelemetry/common/string_util.h:25-57 | the two loops over indices compute the trimmed text |
| `AsciiText.TrimmedLaw` | api/include/opentelemetry/common/string_util.h:25-57 | trimming takes blanks off both ends until the ends are not blank, and nothing else |
| `AsciiText.TrimmedBetween` | api/include/opentelemetry/common/string_util.h:25-57 | text that does not begin or end with a blank is what is left of it between any blanks |
| `AsciiText.ClassCodes` | api/include/opentelemetry/common/detail/ascii.h:20-43 | letters, digits and blanks by character code |
| `EntityParser.PercentDecode` | resource_detectors/src/env_entity_detector.cc:73-101 | the loop over indices computes the decoding; broken escapes stay as they are |
| `EntityParser.PercentRoundTrip` | resource_detectors/src/env_entity_detector.cc:73-101 | decoding what was percent-encoded gives every byte string back |
| `EntityGrammar.EscapeDecoded` | resource_detectors/src/env_entity_detector.cc:83-93 | % and two digits are one byte, the first digit its high half |
| `EntityGrammar.LiteralDecoded` | resource_detectors/src/env_entity_detector.cc:94-97 | other characters stay, and so does % where two digits do not follow |
| `EntityGrammar.HexCodes` | api/include/opentelemetry/common/detail/ascii.h:45-69 | hexadecimal digits of both cases by character code |
| `EntityParser.IsValidSchemaUrl` | resource_detectors/src/env_entity_detector.cc:103-137 | true exactly for non-empty relative references and for something behind a well-formed scheme |
| `EntityGrammar.AbsoluteUrl` | resource_detectors/src/env_entity_detector.cc:110-132 | with a scheme, a URL is valid if and only if the scheme is spelled as the RFC says and something follows |
| `EntityGrammar.RelativeUrl` | resource_detectors/src/env_entity_detector.cc:135-136 | without one, if and only if it is not empty |
| `EntityGrammar.UrlSpaced` | resource_detectors/src/env_entity_detector.cc:233-246 | blanks around a URL do not count, and one that is not valid is dropped |
| `EntityParser.ParseKeyValueList` | resource_detectors/src/env_entity_detector.cc:139-166 | the loop over pieces computes the attributes of the list, later ones winning |
| `EntityParser.KeyValuesConcat` | resource_detectors/src/env_entity_detector.cc:139-166 | a list behind a comma is added to what the list before it gave |
| `EntityGrammar.PairSpaced` | resource_detectors/src/env_entity_detector.cc:146-164 | blanks around key and value do not count |
| `EntityGrammar.PairWithoutValue` | resource_detectors/src/env_entity_detector.cc:156-164 | a value may be missing, and is then empty |
| `EntityGrammar.NoEquals` | resource_detectors/src/env_entity_detector.cc:151-155 | pieces without = are skipped |
| `EntityGrammar.NoKey` | resource_detectors/src/env_entity_detector.cc:160-163 | pieces with nothing but blanks before it are skipped |
| `EntityParser.ParseSingleEntity` | resource_detectors/src/env_entity_detector.cc:168-249 | the cursor over one text computes the three-part grammar, with every reason to refuse an entity |
| `EntityGrammar.EntitySpaced` | resource_detectors/src/env_entity_detector.cc:182-206 | blanks between type and block and inside the block do not count |
| `EntityGrammar.KindCodes` | resource_detectors/src/env_entity_detector.cc:184-196 | types by character code |
| `EntityGrammar.EntityRefused` | resource_detectors/src/env_entity_detector.cc:176-204 | no block, a malformed type, or a block that does not end: the entity is refused |
| `EntityGrammar.NothingIdentified` | resource_detectors/src/env_entity_detector.cc:199-211 | so is one without an identifying attribute |
| `EntityGrammar.TailRefused` | resource_detectors/src/env_entity_detector.cc:219-226 | and one whose descriptive block is empty or does not end |
| `EntityGrammar.TailIgnored` | resource_detectors/src/env_entity_detector.cc:233-248 | other text behind the first block is ignored |
| `EntityParser.ParseEntities` | resource_detectors/src/env_entity_detector.cc:251-277 | the loop computes the entities of all pieces, skipping empty and malformed ones |
| `EntityParser.ParsedConcat` | resource_detectors/src/env_entity_detector.cc:251-277 | what stands on one side of a semicolon never affects the other, whatever the texts |
| `EntityGrammar.PieceSpaced` | resource_detectors/src/env_entity_detector.cc:259-263 | blanks around an entity do not count |
| `EntityPrinter.RoundTrip` | resource_detectors/src/env_entity_detector.cc:139-277 | parsing a printed list of well-formed entities gives it back, for all lists and all orders of their attributes |
| `EntityPrinter.ParsedGood` | resource_detectors/src/env_entity_detector.cc:139-277 | whatever the text, every parsed entity is well-formed |
| `EntityPrinter.ParserImage` | resource_detectors/src/env_entity_detector.cc:139-277 | a list of entities can be the result of parsing some text if and only if all of them are well-formed |
| `EntityIdentity.SortedKeys` | resource_detectors/src/env_entity_detector.cc:45-53 | the keys in ascending order, from any order of the map |
| `EntityIdentity.AscendingUnique` | resource_detectors/src/env_entity_detector.cc:53-53 | there is only one ascending list of a set of keys |
| `EntityIdentity.BuildEntityIdentityKey` | resource_detectors/src/env_entity_detector.cc:42-71 | the key is a function of type and attributes, whatever the order of the map |
| `EntityIdentity.KeyInjective` | resource_detectors/src/env_entity_detector.cc:42-71 | among entities whose values have no "=" behind a comma, in particular no comma, equal keys mean equal type and attributes |
| `EntityIdentity.KeyUnique` | resource_detectors/src/env_entity_detector.cc:42-71 | no other well-formed entity has the same key if and only if there is one attribute and its value hides none |
| `EntityIdentity.KeyCollision` | resource_detectors/src/env_entity_detector.cc:42-71 | two different entities with the same key |
| `EntityMerge.IndexLast` | resource_detectors/src/env_entity_detector.cc:301-316 | the first pass maps every key to the last index it occurs at |
| `EntityMerge.Merge` | resource_detectors/src/env_entity_detector.cc:298-361 | the two passes drop each entity that has a later one with the same key and lay the others over each other from left to right |
| `EntityMerge.PutAll` | resource_detectors/src/env_entity_detector.cc:332-342 | writing attributes one by one, in any order, overrides the ones there |
| `EntityMerge.SurvivorsDistinct` | resource_detectors/src/env_entity_detector.cc:301-327 | every key that occurs survives exactly once |
| `EntityMerge.SurvivorsConcat` | resource_detectors/src/env_entity_detector.cc:301-327 | appending a list drops exactly the survivors whose keys occur in it |
| `EntityMerge.AttributeOrigin` | resource_detectors/src/env_entity_detector.cc:318-355 | an attribute has a value if and only if the last surviving entity that has the attribute gives it, descriptive ones winning within an entity |
| `EntityMerge.UrlOrigin` | resource_detectors/src/env_entity_detector.cc:357-360 | the schema URL is that of the last surviving entity with one |
| `EntityMerge.LiveExactly` | resource_detectors/src/env_entity_detector.cc:301-327 | for well-formed entities with plain values an entity survives exactly if no later one has the same type and identifying attributes |
| `EntityMerge.AttributeDecided` | resource_detectors/src/env_entity_detector.cc:318-355 | for these, where an attribute of the resource comes from, said of types and attributes only; descriptive ones win within an entity |
| `EntityMerge.UrlDecided` | resource_detectors/src/env_entity_detector.cc:357-360 | for these, where the schema URL comes from |
| `EntityMerge.BothKept` | resource_detectors/src/env_entity_detector.cc:301-355 | two entities of one type with different identifying attributes are both kept |
| `EntityMerge.RepetitionIgnored` | resource_detectors/src/env_entity_detector.cc:281-364 | writing the whole variable twice changes nothing |
| `EntityMerge.Detect` | resource_detectors/src/env_entity_detector.cc:281-364 | parses and merges; a missing or empty variable and one without entities give the empty resource |

## Left out

- Sockets, curl sessions, gRPC channels, TLS options and headers other than the proxy id: the transport is an arbitrary source of events.
- C++ memory orders, data races and object lifetimes: every atomic operation or lock region is one step, and a session's address is not reused while the client lives.
- Events before `SendRequest`: the transport sends none, which is what makes a handler's exchange come after its session was counted.
- HttpClient.OtlpHttpClient.Shutdown: does not promise that the cleanup loop ends, because the sessions' events are arbitrary; what holds when it ends is promised.
- `size_t` and `int64_t` wrap-around of the counters, the sizes and the reference count.
- Starting the file ring in a directory that already holds files: the restart probe seeks to `std::ios::end` as an absolute position, so what it reports is arbitrary here, `probe`, and the ring theorems start from a fresh directory.
- Time fields in ring file names (`CheckUpdate`), paths that do not fit their buffer, alias links, creating directories, and file operations that fail.
- More than one thread exporting to the file backend at once.
- NUL characters inside paths, the Windows branches, and `DirName`.
- The text of JSON documents, UTF-8 replacement and floating-point printing: conversion stops at JSON values, objects are maps, doubles are opaque, and member names within a message are distinct.
- Base64.EscapeInverse: the inverse is a reference definition; the code's own decoder with its error codes and line breaks, and the unpadded variants, are not part of this model.
- What cancelling does to a running call, the creation of the asynchronous data on first use, and the selection of gRPC versions.
- The identity key is computed when an entity is parsed and stored with it; here it is computed when entities are merged, from the same fields.
- Log messages, option structs, factories, environment variables, the OpenTracing shim, Elasticsearch and ostream exporters are not part of this model.
