# BugIT: capture, snapshot and deterministic replay

BugIT records socket I/O events of services, exports the last thirty seconds of them as
a snapshot, and replays a snapshot under a debugger with recorded responses and frozen
time.  This project models that pipeline in Dafny and proves what it promises.

- `IOEvents` is the record everything works on; `ByteStrings`, `Options` and `FirstSeen`
  are shared vocabulary.
- **Replay.** `ReplayProxy` is the proxy's state machine (a cursor and a set of consumed
  responses) with the theorems about all its runs: replay is deterministic, a rewind is
  as good as a fresh proxy, nothing is served twice without a rewind.  `MultiServers`
  holds the server class proved against it, `SingleServers` the older one-position proxy
  and its refinement, `HttpText` how requests are read.  `Stops`, `Sessions` and
  `Debugger` are the debugging session, `TimeFreeze` the frozen clock, `Interleaving` the
  two-mutex system of debugger clients and proxy connections, `Schedules` what its
  goroutines are given and where the cursors go under every schedule.
- **Collection.** `VectorClock` prints, injects and parses the vector-clock header,
  `Transport` carries it over the wire, `VectorGraph` is the graph built from it.
  `RollingBuffers`, `Triggers` and `Ingest` are the window, the snapshot triggers and the
  handling of one event.
- **Snapshots.** `Redact` is the scrubber, `Credentials` what it does to texts, `EventCodec` the record and stream format,
  `ScrubbedKeys` what scrubbing does to the keys of recorded requests,
  `Snapshots` the export, `EndToEnd` what holds from capture to replay.
- **Local capture.** `ReplayConfig` and `Incidents` derive the replay configuration and
  the incident summary, `IncidentTexts` says what is left unscrubbed in the latter.

Classes stand where the source updates objects in place; their methods are proved
against functions, and the theorems are about those functions.  Mutexes and goroutines
appear in `Interleaving` only; there a hold of a mutex is one step that takes it and does
what it protects, and one that gives it up.  Clock readings are parameters that do not go
back.  The environment variable with the frozen time is a field.

Verify with `dafny verify dfyconfig.toml`.

## What turned out not to hold

- A jump forward can rewind the proxy.  A connection samples the session's cursor before
  it takes the proxy's mutex; a jump that overtakes the sample lets the stale `SetCursor`
  forget what was served, and an event is given out twice (`StaleSampleRepeats`).  Jumps
  back aside, that is the only way: `OvertakingIsToBlame` is the exact condition for one step,
  `WithoutOvertakingNothingRewinds` and `WithoutOvertakingNothingRepeats` what holds of
  all schedules without it.
- A debugger step is not atomic: two simultaneous steps can move the cursor once
  (`StepCanBeLost`).  `WhereAStepLands` says where a step lands under every schedule and
  exactly when that is delta beyond the cursor; it is whenever nobody jumps between its
  read and its jump (`UndisturbedStep`).
- Moving the cursor to where it already is, or forward, does not make consumed responses
  available again; exactly when it does is `RewindIsFresh`.
- Frozen time can run backwards for a capture that consists of markers only; exactly when
  it does is `FrozenTimeNeverRunsBackwards`.
- The vector graph can have cycles.  A message closes none, merging the header of the reply
  closes one (`ReplyClosesCycle`).  The graph is acyclic exactly if no operation closed a
  cycle (`HistoryAcyclicIff`), and whether one will shows in the graph before it
  (`ClosesCycleShows`).  Only headers can (`ObservingClosesNothing`), and none do where no
  node both sends headers here and is observed or merged into here (`WithoutEchoesAcyclic`).
- The redactor leaves no match in its output, but a credential of the payload can come
  through: in "Bearer Bearer secret" and "Bearer Basic secret" the secret does
  (`InARowSurvives`).  `WhollyStarredIff` is the exact condition for every match of every
  rule in the payload; a Bearer or Basic match that begins inside no other is always
  overwritten (`AloneCounts`), and so is a Cookie match where no credential runs over a line
  break (`CookieAloneCounts`).
- Scrubbing can change the key of a recorded request, which then no longer answers the
  request it was recorded from: `GET /Basic HTTP/1.1` is an input (`BasicPathLost`),
  `KeySurvivesIff` the exact condition.
- The redactor does not see the incident: its texts are made of the window before it is
  scrubbed.  `CookieInRootCause` and `BasicInFailedStep` are inputs, `IncidentCleanIff` the
  exact condition for each text.
- An injected clock reading is parsed back from the bytes that carry it unless its header
  line is cut at 2048 bytes or its node name has a line break; for messages whose first
  line does not itself contain the header's name these are the only ways it is lost from
  them (`HeaderSurvives`, `ClockCrossesWire`).
- Injection does not reach the graph.  It rewrites the collector's copy of a write, and the
  collector looks for headers in reads, so every capture leads to the same graph with
  injection and without (`InjectionLeavesGraph`).  `ReadingBecomesEdge` is about a read with
  the injected bytes, which the collector would have to get from elsewhere.
- A captured request can be turned away at the port generated for its own Host field: the
  generator reads the first line that starts with the field's name, the proxy the first
  occurrence of the name anywhere.  `ForwardedIsTurnedAwayIff` is an input (an
  `X-Forwarded-Host` line before the Host line), `CapturedRequestTurnedAwayIff` the exact
  condition.
- After a merge the receive edge is there if the event is observed next; if another event
  is observed in between it is not (`OnlyPredecessorLeadsIn`).

## Model

| member | source | states |
|---|---|---|
| ReplayProxy.AlikeForever | dre-replay-cli/internal/proxy/multi.go:37-46 | deterministic replay: two proxies with equal cursors that agree on what is consumed from there on serve the same events in every further run, and stay alike |
| ReplayProxy.AlikeStep | dre-replay-cli/internal/proxy/multi.go:127-191 | the same for one hold of the mutex |
| ReplayProxy.RewindIsFresh | dre-replay-cli/internal/proxy/multi.go:37-46 | a move of the cursor makes the proxy like a freshly built one exactly if it goes back or nothing from there on is consumed |
| ReplayProxy.RewindReplays | dre-replay-cli/internal/proxy/multi.go:37-46 | after a rewind the proxy replays, request for request, what a fresh one would, whatever was served before |
| ReplayProxy.RunKeepsInv | dre-replay-cli/internal/proxy/multi.go:143-191 | only non-empty writes in range are ever marked consumed, over every run |
| ReplayProxy.ServedIsEligible | dre-replay-cli/internal/proxy/multi.go:164-172 | what is served is an unconsumed non-empty write at or after the cursor, and serving consumes just it |
| ReplayProxy.ConsumedIsSpent | dre-replay-cli/internal/proxy/multi.go:37-46 | the consumed set is the history: an event is in it exactly if it was served and the cursor has not been taken back past it since |
| ReplayProxy.ConsumedStep | dre-replay-cli/internal/proxy/multi.go:37-46 | one hold of the mutex adds what it serves and removes what it rewinds past |
| ReplayProxy.ServedTwiceMeansRewound | dre-replay-cli/internal/proxy/multi.go:37-46 | an event is served twice only if in between the cursor was taken back to it or before it |
| ReplayProxy.NoRewindNoRepeat | dre-replay-cli/internal/proxy/multi.go:143-175 | without a move back two responses are two events |
| ReplayProxy.ServedCountIsConsumed | dre-replay-cli/internal/proxy/multi.go:164-171 | without a move back every response consumes exactly one more event |
| ReplayProxy.ResponsesAreBounded | dre-replay-cli/internal/proxy/multi.go:164-171 | between rewinds there are at most as many responses as recorded writes not yet consumed |
| ReplayProxy.FirstUnserved | dre-replay-cli/internal/proxy/multi.go:177-191 | the first unconsumed non-empty write at or after a place, or none at all |
| ReplayProxy.FirstRequest | dre-replay-cli/internal/proxy/multi.go:149-163 | the first recorded request with the same key, and the same host if both have one, or none at all |
| ReplayProxy.PickIs | dre-replay-cli/internal/proxy/multi.go:143-191 | what a request is given, in terms of the recording: without a key the first write with a payload, not yet served, from the cursor on; with one the first such write after the first recorded read with the same key and no other host; else nothing |
| ReplayProxy.FilterTurnsAwayIff | dre-replay-cli/internal/proxy/multi.go:133-138 | at an address name:port a request is turned away, and nothing changes, if and only if it names a host that is not that name, by the comparison in use, and does not begin with it; else the filter makes no difference |
| ReplayProxy.PlainFilterTurnsAwayIff | dre-replay-cli/internal/proxy/multi.go:133-138 | the same for an address without a port; the empty address filters nothing |
| ReplayProxy.ResponsesFrom | dre-replay-cli/internal/proxy/multi.go:164-166 | the non-empty writes from a place on, all of them and in recorded order |
| ReplayProxy.PickInOrder | dre-replay-cli/internal/proxy/multi.go:143-175 | with the first k candidates of a request consumed it is given number k |
| ReplayProxy.IdenticalRequests | dre-replay-cli/internal/proxy/multi.go:143-175 | the same request repeated from a clean cursor is given the writes after its recorded request one by one in recorded order, then nothing |
| MultiServers.MultiServer.constructor | dre-replay-cli/internal/proxy/multi.go:27-35 | a new server has cursor 0 and nothing consumed |
| MultiServers.MultiServer.SetCursor | dre-replay-cli/internal/proxy/multi.go:37-46 | moves the cursor; going back un-consumes everything from the new place on |
| MultiServers.MultiServer.MatchResponse | dre-replay-cli/internal/proxy/multi.go:127-175 | samples the cursor, filters by host, and its nested scan serves and consumes exactly the first unconsumed write after the first matching request |
| MultiServers.MultiServer.FallbackFrom | dre-replay-cli/internal/proxy/multi.go:177-191 | serves and consumes the first unconsumed write from the cursor on |
| SingleServers.Server.MatchResponse | dre-replay-cli/internal/proxy/proxy.go:67-97 | answers keyed requests from the start of the recording without consuming, others in sequence |
| SingleServers.Server.FallbackSequential | dre-replay-cli/internal/proxy/proxy.go:106-119 | serves the next write and advances past it |
| SingleServers.StaysCoupled | dre-replay-cli/internal/proxy/proxy.go:106-119 | on keyless runs from the start the position stands for exactly the consumed writes before it |
| SingleServers.SingleRefinesMulti | dre-replay-cli/internal/proxy/proxy.go:67-119 | on every run of keyless requests from the start both proxies serve the same events |
| SingleServers.KeyedAgreement | dre-replay-cli/internal/proxy/proxy.go:77-95 | on a keyed request they agree exactly if the single server's answer has not been consumed |
| HttpText.KeyIgnoresTheRest | dre-replay-cli/internal/proxy/proxy.go:99-104 | the key of a well-formed request depends on its verb and target only, not on version, headers, body or (outside gRPC) query |
| HttpText.FirstLineOf | dre-replay-cli/internal/proxy/proxy.go:152-161 | the first line of a message comes back whatever follows it |
| HttpText.FieldsOfLine | dre-replay-cli/internal/proxy/proxy.go:135-150 | a request line splits into its three words |
| HttpText.HostOfSecondLine | dre-replay-cli/internal/proxy/proxy.go:121-133 | a Host field in the second line is read whatever the case of its name and the blanks around its value |
| HttpText.ForeignHostTurnedAwayIff | dre-replay-cli/internal/proxy/multi.go:133-138 | the filter on requests with a Host line, letter case ignored |
| HttpText.HttpKey | dre-replay-cli/internal/proxy/proxy.go:135-150 | the key of a request is its verb in capitals and its target without the query |
| HttpText.GrpcIff | dre-replay-cli/internal/proxy/grpc_match.go:8-23 | a target names a gRPC call if and only if it has a slash behind a first byte that is none, a slash at its front aside |
| HttpText.GrpcCallKey | dre-replay-cli/internal/proxy/grpc_match.go:25-31 | the key of a POST to /service/method is GRPC service/method |
| HttpText.PlainPostKey | dre-replay-cli/internal/proxy/grpc_match.go:8-23 | a POST to a path of one segment has the key of an HTTP request |
| Sessions.Session.Start | dre-replay-cli/internal/orchestrator/session.go:130-145 | a started session has a fresh proxy and a clock synced to event 0 |
| Sessions.Session.Seek | dre-replay-cli/internal/orchestrator/session.go:70-83 | clamps the target and moves session cursor, proxy cursor and frozen time together |
| Sessions.Session.Step | dre-replay-cli/internal/orchestrator/session.go:85-87 | undisturbed, moves the cursor by delta, clamped |
| Sessions.Session.SetBreakpoint | dre-replay-cli/internal/orchestrator/session.go:93-104 | adds or removes one breakpoint |
| Sessions.Session.ClearBreakpoints | dre-replay-cli/internal/orchestrator/session.go:106-110 | removes all |
| Stops.NextStop | dre-replay-cli/internal/debugger/debugger.go:151-159 | the least later index that is a breakpoint or a read or write, or none |
| Stops.RunsVisitAllStops | dre-replay-cli/internal/debugger/debugger.go:149-161 | repeated runs visit all later stops once in increasing order and stay at the last; after len runs nothing moves |
| Debugger.RunToIOEvent | dre-replay-cli/internal/debugger/debugger.go:149-161 | seeks to the next stop, or stays and leaves proxy and clock alone |
| Debugger.ReplyAt | dre-replay-cli/internal/debugger/debugger.go:119-146 | what a client is told about a position |
| Debugger.Dispatch | dre-replay-cli/internal/debugger/debugger.go:96-147 | every request leaves cursor, breakpoints, proxy and frozen time as specified and reports them, with process and thread ids recombining to the recorded id |
| Debugger.StepsForward | dre-replay-cli/internal/debugger/debugger.go:100-101 | n steps forward go on by n, or to the end |
| Debugger.StepsBackward | dre-replay-cli/internal/debugger/debugger.go:102-103 | n steps back go back by n, or to the start |
| Debugger.StepsUndo | dre-replay-cli/internal/debugger/debugger.go:100-103 | a step back undoes a step forward exactly if that was not made at the end, and the other way round at the start |
| Debugger.SeekGoes | dre-replay-cli/internal/debugger/debugger.go:104-105 | a jump goes to the place asked for, or to the nearest end |
| Debugger.BreakpointThenRuns | dre-replay-cli/internal/debugger/debugger.go:108-112 | after a breakpoint is set or cleared, k runs end at the k-th later breakpoint, read or write, or at the last, or where they began |
| Debugger.ClearingLeavesNone | dre-replay-cli/internal/debugger/debugger.go:113-115 | clearing leaves no breakpoint and moves nothing |
| Debugger.SeeksIff | dre-replay-cli/internal/debugger/debugger.go:96-118 | which requests seek: steps and jumps always, runs if there is a later stop, the others never; those that do not leave the cursor where it is |
| Interleaving.ExecKeepsInv | dre-replay-cli/internal/orchestrator/session.go:64-128 | every step of every interleaving keeps both cursors in [0, len], one holder per mutex, and the proxy where its history took it |
| Interleaving.ReachedInv | dre-replay-cli/internal/orchestrator/session.go:64-128 | the same for every state any schedule reaches |
| Interleaving.AdvanceKeepsHolders | dre-replay-cli/internal/orchestrator/session.go:70-83 | each mutex is held by exactly the goroutine that is where holders are |
| Interleaving.NoDeadlock | dre-replay-cli/internal/orchestrator/session.go:121-128 | whenever a goroutine is at work some goroutine at work can take its next step |
| Interleaving.EveryStepCounts | dre-replay-cli/internal/debugger/debugger.go:149-161 | every step uses up one of a bounded number of steps left |
| Interleaving.WorkRunsOut | dre-replay-cli/internal/debugger/debugger.go:149-161 | without new requests every operation under way finishes within that bound, whatever the schedule |
| Interleaving.EveryOperationFinishes | dre-replay-cli/internal/debugger/debugger.go:149-161 | run in any order, the goroutines at work run out of steps within that bound, and none can take one exactly when all are idle |
| Interleaving.ChainInv | dre-replay-cli/internal/orchestrator/session.go:64-128 | the same invariant for every state of every run |
| Interleaving.GivenIsHeld | dre-replay-cli/internal/proxy/multi.go:164-172 | the event a goroutine is given is the one it then has in its hands |
| Schedules.ConsumedIsGivenAway | dre-replay-cli/internal/proxy/multi.go:127-175 | under every interleaving the consumed set holds exactly the events given to goroutines since the proxy was last taken back past them |
| Schedules.GivenTwiceMeansTakenBack | dre-replay-cli/internal/proxy/multi.go:127-175 | two goroutines are given the same event only if a step in between, the push of a jump or a SetCursor, took the proxy back past it |
| Schedules.GivenIsBounded | dre-replay-cli/internal/proxy/multi.go:164-171 | while no step takes the proxy back, all goroutines together are given at most the recorded writes not yet consumed |
| Schedules.WithoutOvertakingNothingRewinds | dre-replay-cli/internal/proxy/multi.go:128-130 | as long as no jump goes back or overtakes a sample that a connection holds, no step of any interleaving takes the proxy back |
| Schedules.WithoutOvertakingNothingRepeats | dre-replay-cli/internal/proxy/multi.go:127-175 | nor is any event given twice |
| Schedules.OvertakingIsToBlame | dre-replay-cli/internal/proxy/multi.go:128-130 | a step that does not jump back makes a rewind possible without further jumps if and only if it overtakes a sample |
| Schedules.OvertakingRewinds | dre-replay-cli/internal/orchestrator/session.go:70-83 | after any jump past a held sample there are steps that take the proxy back |
| Schedules.StaleSampleRepeats | dre-replay-cli/internal/proxy/multi.go:128-130 | a schedule in which the session cursor never goes back and the same event is given twice |
| Schedules.WhereAStepLands | dre-replay-cli/internal/orchestrator/session.go:85-87 | in every schedule a step lands delta beyond the cursor it read; that is delta beyond the cursor at its jump if and only if both places have the same landing |
| Schedules.UndisturbedStep | dre-replay-cli/internal/orchestrator/session.go:85-87 | a step moves the cursor by delta, clamped, whenever nobody jumps between its read and its jump |
| Schedules.StepCanBeLost | dre-replay-cli/internal/orchestrator/session.go:85-87 | a schedule in which two simultaneous steps move the cursor once |
| Schedules.SessionWithoutJumps | dre-replay-cli/internal/orchestrator/session.go:64-128 | for every session from its start and every schedule in which nobody jumps, nothing is taken back, nothing given twice, and what is consumed is what was given |
| Schedules.RunAlone | dre-replay-cli/internal/debugger/debugger.go:149-161 | a run that nobody disturbs, step by step through the two-mutex system, ends where the sequential one does, with the proxy moved there |
| Schedules.MarkAlone | dre-replay-cli/internal/orchestrator/session.go:93-110 | so does a change of breakpoints |
| TimeFreeze.BuildClockTimeline | dre-collector/internal/snapshot/snapshot.go:99-122 | builds the timeline: clock events if any, else all but markers |
| TimeFreeze.TimelineFaithful | dre-collector/internal/snapshot/snapshot.go:99-122 | timeline entries are in event order with their events' times, and there are none only for captures of markers alone |
| TimeFreeze.TimelineHolds | dre-collector/internal/snapshot/snapshot.go:99-122 | where there are clock events the timeline holds just these, else all events that are not markers |
| TimeFreeze.FrozenAtIs | dre-replay-cli/internal/timefreeze/engine.go:41-61 | the frozen time is the greatest time among the entries at or before the cursor if one of them is above 0, else the first entry's; without entries the time of the event at the cursor, or of the first, or 0 |
| TimeFreeze.SyncedIs | dre-replay-cli/internal/timefreeze/engine.go:27-39 | a disabled clock and a time of 0 leave the variable alone, any other time is put into it |
| TimeFreeze.Engine.TimestampForCursor | dre-replay-cli/internal/timefreeze/engine.go:41-61 | computes the frozen time at a cursor, as defined by the entries at or before it |
| TimeFreeze.LatestIsMaximum | dre-replay-cli/internal/timefreeze/engine.go:43-48 | the scan finds the greatest time among the entries at or before the cursor |
| TimeFreeze.FrozenMonotone | dre-replay-cli/internal/timefreeze/engine.go:41-61 | with a timeline in order the frozen time never decreases with the cursor and is always some entry's time |
| TimeFreeze.FrozenTimeNeverRunsBackwards | dre-replay-cli/internal/timefreeze/engine.go:41-61 | over the whole range of the cursor frozen time never runs backwards exactly if some event is not a marker or all times are equal |
| TimeFreeze.ForwardJumpsKeepTime | dre-replay-cli/internal/timefreeze/engine.go:27-39 | once set, the time the process sees does not decrease on forward jumps |
| TimeFreeze.Engine.SyncToCursor | dre-replay-cli/internal/timefreeze/engine.go:27-39 | sets the variable unless disabled or the time is 0 |
| TimeFreeze.Engine.ClockIndex | dre-replay-cli/internal/timefreeze/engine.go:73-84 | the last entry at or before the cursor, or the first |
| TimeFreeze.LastAtOrBefore | dre-replay-cli/internal/timefreeze/engine.go:77-83 | no later entry is at or before the cursor, and an entry after it is named only as a default |
| TimeFreeze.ClockIndexMonotone | dre-replay-cli/internal/timefreeze/engine.go:73-84 | the entry shown never moves back as the cursor moves forward |
| VectorClock.SplitClock | dre-collector/internal/vector/vector.go:89-96 | splits at the last colon |
| VectorClock.ParseHeaderValue | dre-collector/internal/vector/vector.go:51-64 | accepts exactly a colon followed by digits only, with 64-bit wrap-around |
| VectorClock.ParsePrinted | dre-collector/internal/vector/vector.go:51-64 | every node name, colons included, and every 64-bit number survive printing and parsing |
| VectorClock.ClockIdInjective | dre-collector/internal/vector/vector.go:34 | different clock readings have different names |
| VectorClock.Clock.InjectHeader | pkg/vectorclock/clock.go:20-25 | ticks the node's counter, modulo 2^64, and prints it |
| VectorClock.MaybeInjectHTTP | pkg/vectorclock/clock.go:27-44 | injects after the first line of what looks like HTTP; the counter ticks even if the line never ends |
| VectorClock.InjectShape | pkg/vectorclock/clock.go:35-43 | the first line stays first, the header follows it, and taking it out restores the message |
| VectorClock.InjectedMessage | pkg/vectorclock/clock.go:34-43 | the injected message byte for byte, header name and all |
| VectorClock.DecimalIs | pkg/vectorclock/clock.go:24 | numbers are printed digit by digit without leading zeros |
| VectorClock.TakenForHTTPIff | pkg/vectorclock/clock.go:28-33 | of messages of at least 12 bytes, responses and GET, HEAD, POST, PUT and PATCH requests are taken for HTTP; DELETE, OPTIONS, CONNECT and TRACE requests are not |
| VectorClock.EmittedIncrease | pkg/vectorclock/clock.go:20-25 | a node's emitted numbers strictly increase over runs too short to wrap |
| VectorClock.TicksCount | pkg/vectorclock/clock.go:20-25 | the number emitted is how often the node was asked, modulo 2^64 |
| VectorClock.HeaderSurvives | dre-collector/internal/ingest/ingest.go:48-66 | injected, cut to 2048 bytes and read back, a reading is recovered exactly if the node has no line break and the header line fits, when the first line does not mention the header |
| VectorClock.ValueBack | dre-collector/internal/ingest/ingest.go:57-63 | what follows the header name parses back exactly if the line's end is there and the node has no break |
| Transport.ToNative | api/grpcapi/events.go:50-74 | converts a message field by field |
| Transport.NativeIsWellFormed | api/grpcapi/events.go:50-74 | whatever message arrives, the length is within the array and the payload is the message's bytes followed by zeros |
| Transport.FromPosted | dre-collector/internal/server/server.go:335-349 | an event posted directly is well-formed: payload and process name are cut to their arrays and zero after them, a missing time is the current one |
| Transport.InjectVector | dre-agent/internal/forward/grpc_client.go:54-66 | rewrites length and payload of an outgoing write if injection lengthened it |
| Transport.InjectedIff | dre-agent/internal/forward/grpc_client.go:54-66 | a write of at least 12 bytes that is taken for HTTP gets the header line; reads and other messages are sent as they are |
| Transport.ReceivedIsCut | api/grpcapi/events.go:33-74 | inject, convert and receive yields the injected bytes cut to 2048, zeros after them and every other field unchanged |
| Transport.ConvertedIsCut | api/grpcapi/events.go:33-74 | the conversion alone, for every event |
| Transport.ClockCrossesWire | dre-agent/internal/forward/grpc_client.go:54-80 | a reading injected by the agent is parsed from the received event exactly if the node has no line break and the header line fits |
| VectorGraph.Engine.Observe | dre-collector/internal/vector/vector.go:29-45 | keeps counters, nodes and edges what the history says |
| VectorGraph.Engine.MergeRemote | dre-collector/internal/vector/vector.go:66-78 | the same for a parsed header |
| VectorGraph.ObservedIdsDistinct | dre-collector/internal/vector/vector.go:32-40 | observed events have pairwise distinct names |
| VectorGraph.SequenceIsCount | dre-collector/internal/vector/vector.go:32-33 | a node's observed events are numbered 1, 2, 3 in order |
| VectorGraph.SequencesHaveNoGaps | dre-collector/internal/vector/vector.go:32-33 | every number up to the count was given out |
| VectorGraph.OnlyPredecessorLeadsIn | dre-collector/internal/vector/vector.go:41-44 | just after an event is observed the one edge to it comes from its list predecessor |
| VectorGraph.EdgesAreAnchored | dre-collector/internal/vector/vector.go:66-78 | every edge starts at a recorded node and ends at one, or at number 0 of a node not observed by then |
| VectorGraph.MergeLeadsToLatest | dre-collector/internal/vector/vector.go:66-78 | the edge of a merge leads to the last event of the local node observed before it |
| VectorGraph.ReceiveEdge | dre-collector/internal/vector/vector.go:41-44 | a merge directly followed by the observation leaves the edge from the header's reading to the event |
| VectorGraph.WithoutMergesAPath | dre-collector/internal/vector/vector.go:29-45 | without merges the graph is one simple path |
| VectorGraph.AcyclicWithEdge | dre-collector/internal/vector/vector.go:66-78 | an edge leaves a graph without cycles exactly if there were none and its target does not lead to its source |
| VectorGraph.AcyclicStep | dre-collector/internal/vector/vector.go:29-45 | the same for one operation on the graph |
| VectorGraph.ClosesCycleShows | dre-collector/internal/vector/vector.go:66-78 | whether an operation will close a cycle shows in the graph before it: for a merge, the local node's current event leads to the header's reading |
| VectorGraph.HistoryAcyclicIff | dre-collector/internal/vector/vector.go:29-78 | over every history the graph has no cycle exactly if no operation closed one |
| VectorGraph.ObservingClosesNothing | dre-collector/internal/vector/vector.go:29-45 | observing an event that no header has named closes no cycle |
| VectorGraph.ReplyClosesCycle | dre-collector/internal/vector/vector.go:66-78 | a message between two observed nodes closes no cycle, the merge of its reply does |
| VectorGraph.MergeCanCloseACycle | dre-collector/internal/vector/vector.go:66-78 | two unrelated events can be made to precede each other |
| VectorGraph.WithoutEchoesAcyclic | dre-collector/internal/vector/vector.go:66-78 | there is no cycle where no node both sends headers and is observed or merged into |
| Ingest.Service.IngestEvent | dre-collector/internal/ingest/ingest.go:40-46 | merge, add, observe and evaluate in this order, with the exact effect on window, graph and triggers |
| Ingest.Service.ParseVectorHeader | dre-collector/internal/ingest/ingest.go:48-66 | merges exactly the reading of a read event's first header, if there is one |
| Ingest.IngestLeavesReceiveEdge | dre-collector/internal/ingest/ingest.go:40-46 | after ingesting an event that carries a reading the last edge leads from that reading to the event |
| RollingBuffers.RollingBuffer.Add | dre-collector/internal/buffer/buffer.go:27-42 | the buffer holds, in order, all events ever added within 30 s of the last; the newest is always kept |
| RollingBuffers.RollingBuffer.Snapshot | dre-collector/internal/buffer/buffer.go:44-50 | returns a copy in new storage |
| RollingBuffers.CutAgain | dre-collector/internal/buffer/buffer.go:32-41 | cutting the old window again gives the cut of the full history |
| RollingBuffers.WindowHolds | dre-collector/internal/buffer/buffer.go:27-42 | an event is in the window exactly if it was added less than thirty seconds before the last one |
| Triggers.Engine.Fire | dre-collector/internal/trigger/trigger.go:163-187 | automatic triggers wait out the cooldown since the last snapshot of any kind, the others always pass; snapshots stay spaced |
| Triggers.TriggerFiresIff | dre-collector/internal/trigger/trigger.go:163-187 | over every run: with a callback each manual, exit and SIGSEGV trigger leads to a snapshot, and an automatic one if and only if no snapshot lies within a minute before its check; without a callback none does |
| Triggers.SnapshotsStay | dre-collector/internal/trigger/trigger.go:163-187 | snapshots once taken are among those of the whole run |
| Triggers.VerdictIs | dre-collector/internal/trigger/trigger.go:83-135 | what an event asks for: a read that contains a rule for server errors a 5xx snapshot, one that contains only one for client errors a 4xx snapshot if these are enabled, any other none |
| Triggers.Engine.Evaluate | dre-collector/internal/trigger/trigger.go:83-135 | only reads trigger; 5xx before 4xx, 4xx only if enabled; at most one snapshot |
| Triggers.Engine.SetRules5xx | dre-collector/internal/trigger/config.go:28-33 | an empty rule list changes nothing |
| Triggers.AutomaticTakeTime | dre-collector/internal/trigger/trigger.go:175-181 | n automatic snapshots take n - 1 cooldowns |
| Triggers.AutomaticAreRare | dre-collector/internal/trigger/trigger.go:175-181 | a window of length w holds at most floor(w / cooldown) + 1 automatic snapshots |
| Redact.FindAllSpec | dre-collector/internal/redact/redact.go:19 | the matches found are longest matches, in order and apart, and every place where the rule matches is inside one |
| Redact.MatchAtLongest | dre-collector/internal/redact/redact.go:9-13 | the greedy leftmost-first match of each pattern is its longest |
| Redact.Scrub | dre-collector/internal/redact/redact.go:15-32 | overwrites the matches of one rule after the other and logs them |
| Redact.StarOut | dre-collector/internal/redact/redact.go:20-23 | turns exactly the bytes within the matches into stars |
| Redact.NothingMatchableSurvives | dre-collector/internal/redact/redact.go:15-32 | after scrubbing none of the three rules matches anywhere |
| Redact.StarsMakeNoMatches | dre-collector/internal/redact/redact.go:18-31 | stars never create a match, for any rule |
| Redact.PassCleans | dre-collector/internal/redact/redact.go:18-31 | a pass leaves no match of its own rule and none of a rule that had none |
| Redact.ScrubIsIdempotent | dre-collector/internal/redact/redact.go:15-32 | scrubbing again changes and logs nothing |
| Redact.LogIsExact | dre-collector/internal/redact/redact.go:20-30 | the length stays, logged regions are all stars, every other byte is unchanged |
| Redact.ScrubMasks | dre-collector/internal/redact/redact.go:15-32 | after each pass exactly the bytes inside matches of the payload that count, of the rules so far, have become stars |
| Redact.MatchAtMasked | dre-collector/internal/redact/redact.go:18-19 | in the text a pass sees, its rule matches exactly where it matched in the payload and is not hidden by earlier rules |
| Redact.WhollyStarredIff | dre-collector/internal/redact/redact.go:15-32 | a match of any rule in the payload is all stars after scrubbing if and only if it lies inside one match of the payload that counts |
| Redact.AloneCounts | dre-collector/internal/redact/redact.go:9-23 | a Bearer or Basic match of the payload that begins inside no Bearer or Basic match is overwritten whole |
| Redact.InARowSurvives | dre-collector/internal/redact/redact.go:18-23 | for every secret without spaces and capital B or C, in "Bearer Bearer secret" and "Bearer Basic secret" the second credential is a match and its secret is left as it was |
| Redact.CookieAloneCounts | dre-collector/internal/redact/redact.go:9-23 | a Cookie match that begins inside no match is overwritten whole in every payload in which no Bearer or Basic match lies over a line break |
| Credentials.BearerMatchesIff | dre-collector/internal/redact/redact.go:10 | the rule matches exactly at Bearer, one or more spaces and something that is none |
| Credentials.BasicMatchesIff | dre-collector/internal/redact/redact.go:11 | the same for Basic |
| Credentials.CookieMatchesIff | dre-collector/internal/redact/redact.go:12 | the rule matches exactly at Cookie and a colon, spaces or none, and something that is no line break |
| Credentials.NoSpaceNoMatch | dre-collector/internal/redact/redact.go:10-11 | without a space behind it neither Bearer nor Basic is a match |
| Credentials.BearerScrubbed | dre-collector/internal/redact/redact.go:15-32 | Bearer, spaces and a token are overwritten to the end of the token and logged, and nothing else is touched |
| Credentials.BasicScrubbed | dre-collector/internal/redact/redact.go:15-32 | the same for Basic |
| Credentials.CookieScrubbed | dre-collector/internal/redact/redact.go:15-32 | Cookie, colon, spaces or none and a value are overwritten to the end of the line and logged, and nothing else is touched |
| Credentials.CookieLineStarred | dre-collector/internal/redact/redact.go:12-23 | in every text a Cookie line is overwritten if no match lies over its beginning and no credential runs over a line break |
| Credentials.CredentialStarred | dre-collector/internal/redact/redact.go:10-23 | in every text a credential is overwritten to the next space if no match that begins before it lies over it |
| Credentials.NoSpaceUntouched | dre-collector/internal/redact/redact.go:10-11 | Bearerx and Basicx are left as they are |
| ScrubbedKeys.KeySurvivesIff | dre-replay-cli/internal/proxy/proxy.go:99-104 | a recorded request keeps its key through scrubbing if and only if no match that counts lies over its verb or the part of its target that is in the key |
| ScrubbedKeys.BasicPathLost | dre-collector/internal/redact/redact.go:11 | for every request to /Basic whose verb has no capital B or C the key of the scrubbed record is another one |
| ScrubbedKeys.KeyOfTwoWords | dre-replay-cli/internal/proxy/proxy.go:135-161 | the key of a text that begins with two words is that of the words, whatever follows |
| ScrubbedKeys.KeyChanges | dre-replay-cli/internal/proxy/grpc_match.go:8-31 | a star in what the key is made of changes it, for HTTP and gRPC keys |
| EventCodec.DecodeEncode | api/ioevent/event.go:23-50 | a record decodes to the event encoded |
| EventCodec.EncodeDecode | api/ioevent/event.go:23-50 | every 2089 bytes are the encoding of what they decode to |
| EventCodec.RecordLayout | api/ioevent/event.go:23-34 | which field stands where in the 2089 bytes |
| EventCodec.LEByte | api/ioevent/event.go:24-33 | byte i of a number has the weight 256 to the i |
| EventCodec.Encode | api/ioevent/event.go:23-34 | fills the buffer with the record |
| EventCodec.Decode | api/ioevent/event.go:36-50 | end of stream before the first byte, an error inside a record, else the record, and the reader advances |
| EventCodec.EncodeEvents | dre-collector/internal/snapshot/snapshot.go:56-61 | the encode loop of the export |
| EventCodec.ParseEvents | pkg/drearchive/archive.go:153-163 | the decode loop of a snapshot |
| EventCodec.StreamRoundTrip | pkg/drearchive/archive.go:153-163 | decoding concatenated encodings gives back the list |
| EventCodec.DecodesIffWhole | pkg/drearchive/archive.go:153-163 | a stream decodes exactly if it is a whole number of records, and re-encoding gives back its bytes |
| Snapshots.ScrubEvents | dre-collector/internal/server/server.go:105-111 | scrubs every event of the copied window in place and collects the log |
| Snapshots.LogsInOrder | dre-collector/internal/server/server.go:105-111 | the log of each event stands, all of it, behind those of the events before it, and nothing else is logged |
| Snapshots.UniqueNodes | dre-collector/internal/snapshot/snapshot.go:86-97 | collects the nodes named, each once |
| FirstSeen.FirstsDistinct | dre-collector/internal/snapshot/snapshot.go:86-97 | no value is collected twice |
| FirstSeen.FirstsComplete | dre-collector/internal/snapshot/snapshot.go:86-97 | a value is collected exactly if it occurs |
| Snapshots.CaptureSnapshot | dre-collector/internal/server/server.go:96-112 | copies the window, builds the incident from it, scrubs the copy and exports events, nodes, graph, log and timeline |
| Snapshots.ScrubbedEvent | dre-collector/internal/server/server.go:106-111 | a scrubbed event differs in its captured bytes only, and no rule matches in those |
| Snapshots.SnapshotDecodes | dre-collector/internal/snapshot/snapshot.go:56-64 | a snapshot decodes to as many events as it says, each the captured one scrubbed and safe to slice, with the timeline of the captured events |
| EndToEnd.ReadingBecomesEdge | dre-collector/internal/ingest/ingest.go:40-66 | given a read event that carries the bytes of an injected message as sent to the collector, which is a hypothesis, ingesting it leaves an edge from the sender's reading to that event |
| EndToEnd.InjectionAddsNothing | dre-agent/internal/forward/grpc_client.go:54-66 | every event, injected, sent and received, adds to the graph what it adds without injection |
| EndToEnd.InjectionLeavesGraph | dre-collector/internal/ingest/ingest.go:48-51 | so every capture leads to the same graph with injection and without |
| EndToEnd.CutStaysWellFormed | dre-collector/internal/buffer/buffer.go:27-42 | events that can be sliced when they arrive can be sliced in every later window |
| IncidentTexts.IncidentCleanIff | dre-collector/internal/server/server.go:98-103 | text for text, when a rule matches in what is exported of an incident: never in the title; in the root cause, the failed step and the summary exactly if in the header text or the cut first line of the failing response; in the services exactly if in a process name |
| IncidentTexts.LeadAddsNothing | dre-collector/pkg/localcapture/incident.go:69-69 | a text without capital B and C in front of another makes no match and takes none away |
| IncidentTexts.SummaryClean | dre-collector/pkg/localcapture/incident.go:69-69 | the summary has a match exactly if the failed step in it has one |
| IncidentTexts.TextsOfCulprit | dre-collector/pkg/localcapture/incident.go:85-109 | title, root cause, failed step and summary of an incident about a response, from its status line, header lines and body |
| IncidentTexts.TextsWithoutCulprit | dre-collector/pkg/localcapture/incident.go:49-57 | without a failing response the texts are the default ones |
| IncidentTexts.CookieInRootCause | dre-collector/internal/server/server.go:98-103 | whatever the capture, if the failing response an incident is about sets a cookie among its header lines, the cookie is a match in the root cause |
| IncidentTexts.BasicInFailedStep | dre-collector/internal/server/server.go:98-103 | if its reason phrase names a credential and it has no header lines, failed step and summary have a match though the root cause has none |
| EndToEnd.LoadedIsValid | dre-replay-cli/internal/orchestrator/session.go:136 | a snapshot always loads into a recording the proxy can slice, event for event |
| EndToEnd.ReplayedResponsesAreScrubbed | dre-replay-cli/internal/proxy/multi.go:164-171 | in every run, every replayed response is a captured response scrubbed, and no rule matches in it |
| ReplayConfig.AddServices | dre-collector/pkg/localcapture/replayconfig.go:50-69 | the loop adds one service per distinct key, in order of first appearance, at consecutive ports |
| ReplayConfig.BuildServices | dre-collector/pkg/localcapture/replayconfig.go:47-70 | the services of a capture are those of the distinct keys of its events |
| ReplayConfig.OneServicePerKey | dre-collector/pkg/localcapture/replayconfig.go:50-61 | the keys are distinct and are exactly those of captured hosts |
| ReplayConfig.HostParts | dre-collector/pkg/localcapture/replayconfig.go:88-96 | a host without a port stands for port 80, one with a number behind its last colon for that port |
| ReplayConfig.PortsAreKeptApart | dre-collector/pkg/localcapture/replayconfig.go:58-61 | two ports of one host are two services |
| ReplayConfig.NameOfHost | dre-collector/pkg/localcapture/replayconfig.go:105-112 | the name is the host with dots and colons turned into dashes |
| ReplayConfig.ServiceOfHost | dre-collector/pkg/localcapture/replayconfig.go:62-70 | the service is reached under host and port as captured, port 80 left out |
| ReplayConfig.CapturedRequestHasService | dre-collector/pkg/localcapture/replayconfig.go:52-58 | a request whose second line names a host and port stands for that service |
| ReplayConfig.PortsSurviveSorting | dre-collector/pkg/localcapture/replayconfig.go:72-74 | however the services are reordered their ports are distinct and are the next ports from 18081 on |
| ReplayConfig.CapturedHostPasses | dre-replay-cli/internal/proxy/multi.go:133-138 | the host that a service was generated from, colons and all, passes the filter of its port |
| ReplayConfig.GeneratorReads | dre-collector/pkg/localcapture/incident.go:111-118 | the generator reads the first Host field whose name starts a line |
| ReplayConfig.CapturedRequestTurnedAwayIff | dre-replay-cli/internal/proxy/multi.go:133-138 | a captured request is turned away at the port of its own Host field if and only if the first host: in it starts no line and what follows is not empty, not the filtered host in any case and does not begin with it |
| ReplayConfig.ForwardedIsTurnedAwayIff | dre-replay-cli/internal/proxy/proxy.go:121-133 | a request with an X-Forwarded-Host line before its Host line is turned away there unless the forwarded host begins with that host or is it |
| Incidents.FindCulprit | dre-collector/pkg/localcapture/incident.go:23-46 | the single pass ends with title, cause and step of the culprit, or all empty |
| Incidents.BuildIncident | dre-collector/pkg/localcapture/incident.go:16-77 | no incident without events; title, root cause, failed step and summary come from the one culprit, an empty root cause replaced by its default, or are all defaults; with the services |
| Incidents.FindServices | dre-collector/pkg/localcapture/incident.go:28-34 | collects the process names and, for writes, verbs and targets, and keeps those without a space |
| Incidents.ServicesAre | dre-collector/pkg/localcapture/incident.go:59-66 | the services are exactly the process names without spaces that occur |
| Incidents.CulpritIs | dre-collector/pkg/localcapture/incident.go:35-46 | the culprit is the last server error if there is one, else the first client error |

## Left out

- Listeners, connections, gRPC streams, HTTP handlers, JSON and YAML, files: library plumbing around the logic modelled here.
- The archive's tar, gzip, encryption and checksum: only the event stream inside it is modelled.
- The eBPF probes, the clock shim and the Delve and process bridges: kernel or foreign code.
- Leader election, object storage, the editor extensions, project discovery, summaries and the source map: no logic that the replay or collection properties depend on.
- HttpText: text functions are those of Go on ASCII; Unicode blanks and letter case are not modelled. The theorems about the proxies hold for any reading of keys and hosts, so they do not depend on it.
- ReplayProxy.FirstRequest: the source also skips consumed events here; reads are never consumed (`RunKeepsInv`), so the scan without that test is the same.
- MultiServers.MultiServer.MatchResponse: a cursor below 0 is the caller's error, since the source would index out of range; a session's cursor is clamped (`Sessions.Session.Seek`).
- Redact.FindAllSpec: the regular-expression engine is a function with the semantics of these three patterns, not a general engine; on the byte level because none of the patterns can begin or stop inside a multi-byte character.
- Interleaving: the frozen clock has no mutex of its own and is written under the session's; it is part of `Sessions`, not of the interleaved system. Stopping a session is a short hold of the session's mutex like any other.
- VectorGraph.ObservedIdsDistinct: the counters wrap at 2^64; the graph theorems are for histories shorter than that.
- VectorClock.EmittedIncrease: likewise for fewer than 2^64 injections.
- VectorGraph.WithoutEchoesAcyclic: a condition on the nodes that is enough but not necessary; the exact one is `HistoryAcyclicIff`.
- Transport.ReceivedIsCut: for injected messages shorter than 2^32 bytes, the width of the length field.
- Triggers.Engine.Fire: the text that goes with a trigger is not modelled.
- Snapshots.CaptureSnapshot: writing the archive, its identifier, cluster name, capture time, trigger and source map; an export that fails on a file operation.
- Redact.CookieAloneCounts: only where no credential runs over a line break, since that stretches the Cookie line before it; `WhollyStarredIff` has no such condition.
- ScrubbedKeys.KeySurvivesIff: for recorded requests whose first line is two words and more, apart by one space.
- IncidentTexts.IncidentCleanIff: of number printing it is assumed that it writes no capital B or C.
- ReplayConfig.BuildServices: scanning and printing of port numbers are parameters; the result of sorting is any reordering.
- Incidents.BuildIncident: number printing and scanning are parameters; the services are a set, since the source takes them out of a map in no fixed order.
