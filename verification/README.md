# Astaire and Rogers: resynchronisation, replication and the wire, verified

Rogers is a proxy that speaks the memcached binary protocol and spreads every
record over the replicas of its virtual bucket (vbucket). Astaire runs beside each
memcached and, after a resize or a restart, fetches from the other nodes what the
local node is missing, by tapping them. This project models both in Dafny and proves
what they promise:

- **Resync.** A round of tap threads is a step system over the local store, with
  clients writing at any moment (`TapThreads`). Taps never overwrite what was written
  after their GET (`TapSafety`), and report success exactly when it is deserved
  (`TapReports`); exactly when they bring back what a client deleted,
  and exactly when they drop the newer record, is in `TapRaces`. Without clients every
  interleaving gives the same store, the one of
  running the taps one after another (`TapMerge`, `TapSerial`). The work list and its
  rounds are specified for every pattern of thread, join and tap failures
  (`Worklist`, `WorklistRounds`), the imperative loop is proved to run exactly those
  rounds (`ResyncEngine`), and a whole resync leaves the newest version of every
  record (`Resync`).
- **Tag protocol.** The control thread is a state machine with signals, lost replies,
  memcached restarts and process crashes (`ControlThread`).
- **Replication.** Reading, writing and deleting over an ordered list of failing
  replicas (`Replication`) behaves as one map, and the CAS a read returns fits the
  next write (`Refinement`); when a REPLACE with that CAS can lose an update is in
  `LostUpdate`. The failure counter and its alarm are in `CommState`, what the alarm says
  of the operations in `BackendAlarm`.
- **Wire.** Words, messages, their round trip (`Bytes`, `Messages`, `RoundTrip`), the
  packets byte by byte with the protocol's numbers written out (`WireFormat`),
  receiving over any chunking (`Connection`, `Framing`) and the proxy's connection
  loop (`Proxy`).
- **End to end.** Any row of requests, printed by a client, cut into any chunks,
  served while replicas stop, printed back and cut into chunks again, is answered as
  one map would answer it (`EndToEnd`), and the CAS values tell of the requests in
  between what those of a single memcached would (`ClientCas`).

`dafny verify dfyconfig.toml` checks everything.

Conventions. A key is a byte string; its bucket is the low seven bits of a hash that
is an open parameter. What the program cannot control - whether a thread starts, what
a server streams, which replica fails, when memcached restarts, how bytes are chunked,
the clock - is an argument, so every theorem is for all of it. Where the program can
read or compute something C++ does not define, the model says so: packets whose
sections overrun the body are `Undefined`, flags from extras that are too short are
`None`, and the signed timestamp difference wraps. The host is little-endian.

Where the program is weaker than its comments say, or than one would hope, the program
is modelled, and both a failing input and the exact condition are proved:

- A message survives printing and parsing if and only if it is `Faithful`
  (`MessageRoundTrip`); `GetkResponseLosesItsValue` is one that does not.
- A tap's ADD carries no CAS, so it can bring back a record that a client deleted before
  or after the tap's GET: exactly as `UndoesDeleteIff` says, and in the runs of
  `EarlierDeleteIsUndone` and `LaterDeleteIsUndone`.
- A tap drops the newer record if somebody changes what is under the key between its GET
  and its write: exactly as `DropsNewerIff` says, and in the run of `NewerIsDropped`.
- A tag can be unsound (the comments on the tag, src/astaire.cpp:780-846, do not mention
  it): over every run exactly as `TagSoundIff` says, and in the run of
  `UnsoundTagHappens`.
- A REPLACE with the CAS of a read can overwrite a later write, but only after a
  fail-over and a coincidence of CAS values: `NoLostUpdate` and `LostAfterFailOver`.
- A failed join blacklists the empty name, not the server: `StruckOffIff`, and
  `TappedAgainAfterFailedJoin` is a run where the server is tapped again.
- A sole replica that answers NOTFOUND on the retry is reported as failing
  (`ReadStatusExact`, `AnswerReportedAsFailure`); a delete reports its last failure, not
  its best (`DeleteStatus`, `LastFailureIsReported`).
- Around the full circle of timestamps the comparison is not transitive:
  `TransitiveIff` and `NotTransitiveAroundTheCircle`.

## Model

| member | source | states |
|---|---|---|
| `Bytes.HostToNetwork64IsSwap` | include/memcached_tap_client.hpp:35-58 | swapping the two 32-bit halves separately and exchanging them is the reversal of all eight bytes |
| `Bytes.WordRoundTrip16` | include/memcached_tap_client.hpp:35-58 | a 16-bit field is written big-endian and read back unchanged |
| `Bytes.WordRoundTrip32` | include/memcached_tap_client.hpp:35-58 | the same for 32 bits |
| `Bytes.WordRoundTrip64` | include/memcached_tap_client.hpp:35-58 | the same for the 64-bit CAS, through the split swap |
| `Bytes.ReadSpells16` | include/memcached_tap_client.hpp:35-58 | a 16-bit field is read as the number its bytes spell, the most significant first |
| `Bytes.ReadSpells32` | include/memcached_tap_client.hpp:35-58 | the same for 32 bits |
| `Bytes.ReadSpells64` | include/memcached_tap_client.hpp:35-58 | the same for 64 bits |
| `Bytes.WriteSpells` | include/memcached_tap_client.hpp:35-58 | what is written for a word of each width spells it |
| `Messages.Layout` | src/memcached_tap_client.cpp:135-165 | every header field sits at its offset in the 24-byte header |
| `Messages.FromWireIsFrame` | src/memcached_tap_client.cpp:27-64 | with the buffer length cut to 32 bits the parser still never sees a packet that is not there, and below 2^32 bytes it sees exactly the protocol's framing |
| `Messages.FrameExtends` | src/memcached_tap_client.cpp:27-133 | bytes that arrive later change neither a complete packet nor the size of an incomplete one |
| `RoundTrip.HeaderFields` | src/memcached_tap_client.cpp:135-190 | every header field printed is read back, whatever follows |
| `RoundTrip.Sections` | src/memcached_tap_client.cpp:135-190 | extras, key, value and rest are cut at the right places |
| `RoundTrip.MessageRoundTrip` | src/memcached_tap_client.cpp:66-292 | parsing a printed message followed by any bytes gives back all its fields and exactly those bytes if and only if it is of a faithful class |
| `RoundTrip.GetkResponseLosesItsValue` | src/memcached_tap_client.cpp:112-126 | every GETK response is parsed as a plain response without its value |
| `RoundTrip.PrintedPacketIsFramed` | src/memcached_tap_client.cpp:66-165 | also where the class is lost, exactly the packet's bytes are consumed; only a printed TAP_MUTATE cannot be parsed |
| `WireFormat.PrintedHeader` | src/memcached_tap_client.cpp:135-165 | magic, op code, key length, extras length, data type, vbucket or status, body length, opaque value and CAS of every printed packet, by offset and number |
| `WireFormat.PrintedBody` | src/memcached_tap_client.cpp:225-305 | flags, expiry, key and value of every printed packet, by class and offset |
| `WireFormat.PrintedTapConnect` | src/memcached_tap_client.cpp:307-345 | a request to tap carries the dump flag, the list flag if there are buckets, their number, and each bucket at its offset |
| `WireFormat.ParsedHeader` | src/memcached_tap_client.cpp:66-190 | the fields every parsed message has, by offset; exactly the packet's bytes are taken |
| `WireFormat.ParsedClass` | src/memcached_tap_client.cpp:80-133 | the class of every parsed message, by the numbers of the op codes |
| `WireFormat.ParsedBody` | src/memcached_tap_client.cpp:192-366 | value, flags and expiry of every parsed message, by class and offset |
| `WireFormat.TapMutateIsParsed` | src/memcached_tap_client.cpp:348-372 | a TAP_MUTATE packet for any record, followed by any bytes, is parsed into exactly its key, value, flags and expiry, and leaves those bytes |
| `Connections.NextChunk` | src/memcached_tap_client.cpp:420-459 | while a packet is incomplete the buffer has room for another chunk within 32 bits |
| `Connections.Connection.Send` | src/memcached_tap_client.cpp:400-418 | on an open socket that takes the bytes, the printed message is appended to what was written; a socket that fails is closed and nothing is written; receiving is left alone |
| `Connections.Connection.Disconnect` | src/memcached_tap_client.cpp:392-398 | closes the socket and changes nothing else |
| `Connections.Connection.Recv` | src/memcached_tap_client.cpp:420-459 | the outcome is a function of the pending bytes alone, whatever the chunks; the end is reported only when no complete message is left |
| `Framing.PacketsInOrder` | src/memcached_tap_client.cpp:27-133 | a stream of packets and a partial one is parsed into exactly those packets, in order, and leaves the partial one |
| `Framing.ReceiveAll` | src/memcached_tap_client.cpp:420-459 | receiving until the end delivers every message once and in order, then DISCONNECTED or ERROR |
| `Framing.ChunkingIsInvisible` | src/memcached_tap_client.cpp:420-459 | two chunkings of the same bytes deliver the same messages |
| `Framing.SentIsReceived` | src/memcached_tap_client.cpp:66-165 | printing any row of faithful messages and parsing the bytes is the identity |
| `Timestamps.EarlierMeans` | src/astaire.cpp:337-344 | what the wrapped signed comparison decides, on all pairs of flags |
| `Timestamps.EarlierInWindow` | src/astaire.cpp:337-344 | within half the circle it is the order of the distances from the window's start |
| `Timestamps.WindowOfTimes` | src/memcached_backend.cpp:424-429 | the flags of times less than 2^31 ms after a start lie in its window at their true distances, and of later ones do not |
| `Timestamps.EarlierIsTimeOrder` | src/memcached_backend.cpp:424-429 | for times less than 2^31 ms apart it is the order of the true times, also across the roll-over; at exactly 2^31 it answers yes both ways |
| `Timestamps.StrictTotalOrder` | src/astaire.cpp:337-344 | on every set of times spanning less than 2^31 ms it is the strict total order of the times, transitivity included |
| `Timestamps.TransitiveIff` | src/astaire.cpp:337-344 | of three timestamps each earlier than the next, the first is earlier than the last if and only if the two steps together go no further than half the circle |
| `Timestamps.NotTransitiveAroundTheCircle` | src/astaire.cpp:337-344 | three timestamps on which transitivity fails |
| `Timestamps.AgreesWithPlainComparison` | src/astaire.cpp:337-344 | where the subtraction does not overflow it is the plain signed comparison |
| `TapSafety.TapStepIsSafe` | src/astaire.cpp:285-398 | one tap step removes nothing, adds only where there is no record, overwrites only the record its GET returned and only by a later one, stores the streamed value, flags and expiry, and touches only keys that pass the filter |
| `TapSafety.RunSound` | src/astaire.cpp:306-398 | in every interleaving with clients, while a thread is about to replace, a record with the CAS it read is the very record it read |
| `TapSafety.UntouchedSince` | src/astaire.cpp:369-397 | a record whose CAS was given out before a point of the run has not been touched since |
| `TapSafety.ReadPoint` | src/astaire.cpp:306-344 | a thread about to replace has an answered GET behind it that returned the record it remembers, and has not moved since |
| `TapSafety.OverwritesOnlyWhatItRead` | src/astaire.cpp:306-398 | in every run a record a tap overwrites is the one its GET returned, strictly older, and stood unchanged at every moment in between, so no write after the GET is overwritten |
| `TapSafety.AddsOnlyWhatWasAbsent` | src/astaire.cpp:306-378 | in every run a record a tap adds was absent when its GET was answered and is absent just before the write |
| `TapReports.ReportIsExact` | src/astaire.cpp:209-442 | in every run, with clients and whatever the local node answers, refuses or loses, a thread that has ended reports success if and only if its server could be reached, streamed only mutations and closed in order and none of its exchanges failed, and it has not ended early |
| `TapRaces.UndoesDeleteIff` | src/astaire.cpp:306-398 | a tap's step brings back what a client deleted in the run, before or after the tap's GET, if and only if the ADD of a thread whose GET found no record lands while the key is absent and a client has deleted it; a REPLACE never does |
| `TapRaces.UndoesLaterDeleteIff` | src/astaire.cpp:306-398 | the same of the deletes since the tap's GET alone |
| `TapRaces.EarlierDeleteIsUndone` | src/astaire.cpp:306-378 | for every record a tap accepts, a run in which a client's delete makes the GET miss and the ADD brings the record back |
| `TapRaces.LaterDeleteIsUndone` | src/astaire.cpp:347-378 | for every record a tap accepts, a run in which a client's write and delete after the GET are followed by the tap's ADD |
| `TapRaces.DropsNewerIff` | src/astaire.cpp:306-398 | over every run a tap's write that reaches the node leaves the key without a record or with an older one if and only if somebody has changed what is under the key since the tap's GET and the key has an older record, or none where one was to be replaced |
| `TapRaces.OnlyClientsIntervene` | src/astaire.cpp:567-611 | in a round that somebody is a client, since no other tap has the bucket |
| `TapRaces.NewerIsDropped` | src/astaire.cpp:347-378 | a run in which a client's older record, written after the GET, makes the ADD of the newer one fail |
| `TapSafety.OtherKeysUntouched` | src/astaire.cpp:285-303 | over every run taps neither write nor remove any key of Astaire's own, or keys of buckets not tapped |
| `TapSafety.TagUntouched` | src/astaire.cpp:300-303 | over every run taps neither write nor remove the tag |
| `Memcached.AstaireKeyMeans` | src/astaire.cpp:18-19 | Astaire's own keys are exactly those that start with its prefix |
| `Buckets.LowSevenBits` | src/astaire.cpp:770-778 | a key's bucket is made of the low seven bits of its hash |
| `TapSafety.TapsNeverLower` | src/astaire.cpp:337-397 | over every run in which clients leave a key alone its record stays and its timestamp never goes back |
| `TapMerge.RoundResult` | src/astaire.cpp:201-442 | for every interleaving a round leaves under each key of a tapped bucket the merge of the old record with all its one server streamed, leaves all other keys alone, and each thread reports success exactly as its server deserves |
| `TapMerge.InterleavingIsInvisible` | src/astaire.cpp:567-611 | any two interleavings of a round end with the same records and the same reports |
| `TapMerge.MergeIsNewest` | src/astaire.cpp:329-397 | the merge is the first record with the latest timestamp among the old one and all arrivals |
| `TapSerial.ConcurrentIsSerial` | src/astaire.cpp:567-611 | every interleaving ends as running the threads one after another in any order does |
| `TapSerial.MergeRecord` | src/astaire.cpp:306-398 | GET, comparison, ADD or REPLACE are one or two steps of the thread, whatever the local node answers, refuses or loses |
| `TapSerial.TapBucketsThread` | src/astaire.cpp:201-442 | for every behaviour of the local node the thread function runs through the thread's steps to its end; if all is answered it leaves the merge of the store with the stream up to the first message that is no mutation, and succeeds exactly on a clean stream and an orderly close |
| `Worklist.CalculateWorklist` | src/astaire.cpp:489-544 | the loop over the view builds the specified work list |
| `Worklist.WorklistSpecification` | src/astaire.cpp:489-544 | listed are exactly the buckets the node is to own, in the new view if there is one and else in the current one, that another server holds (and, if minimal, that it does not hold itself); minimal work is part of full work |
| `Worklist.SourcesSpecification` | src/astaire.cpp:512-537 | each comes with the current holders in order, without this node |
| `Worklist.JoiningNodeFetches` | src/astaire.cpp:489-544 | a node added in a resize fetches the bucket it is to share from its holder |
| `Worklist.RoundPartition` | src/astaire.cpp:627-651 | a round gives every bucket to its first server and to no other, once; no empty or repeated entries |
| `Worklist.PopFirstTotal` | src/astaire.cpp:627-651 | taking the taps off lowers the total by the number of buckets that had a server |
| `Worklist.BlacklistedTotal` | src/astaire.cpp:711-733 | blacklisting never raises the total, and keeps it exactly if no listed server is struck off |
| `WorklistRounds.RoundShrinks` | src/astaire.cpp:567-611 | every round takes at least one pair off the list, so the loop ends |
| `WorklistRounds.RoundsBound` | src/astaire.cpp:554-623 | there are at most as many rounds as the longest source list has servers |
| `WorklistRounds.WorklistConservation` | src/astaire.cpp:554-651 | for every bucket, its servers are those it was fetched from plus those struck off by blacklisting, with multiplicities; fetches follow the list's order |
| `WorklistRounds.NeverTappedAgain` | src/astaire.cpp:587-611 | a server whose joined tap failed is in no later round |
| `WorklistRounds.StruckOffIff` | src/astaire.cpp:587-611 | after a round exactly the first server is off each list, and struck off are exactly the servers whose tap was joined and had failed, and the empty name if a join failed |
| `WorklistRounds.TappedAgainAfterFailedJoin` | src/astaire.cpp:687-708 | a work list on which a server whose failed tap could not be joined is tapped again |
| `WorklistRounds.ProgressBound` | src/astaire.cpp:429-435 | at every moment of every round the resynced count is within the total |
| `WorklistRounds.ProgressComplete` | src/astaire.cpp:429-435 | at the end count and total are equal if and only if every tap started and succeeded and no blacklisting struck a server off |
| `WorklistRounds.NamedServersStay` | src/astaire.cpp:587-611 | when every tap succeeds and all servers have a name, nothing is struck off, so success alone decides |
| `WorklistRounds.StreamedMeans` | src/astaire.cpp:587-611 | a bucket counts as streamed exactly when a joined tap of it reported success |
| `ResyncEngine.Resync.CalculateTaps` | src/astaire.cpp:627-651 | erasing list heads in place yields the round's taps and the specified remaining list |
| `ResyncEngine.Resync.BlacklistServer` | src/astaire.cpp:711-733 | the server is gone from every list and the order of the others is kept |
| `ResyncEngine.WithoutServer` | src/astaire.cpp:718-727 | the erasing loop is the filter |
| `ResyncEngine.Resync.OwlTotalBuckets` | src/astaire.cpp:737-749 | the sum of the list lengths |
| `ResyncEngine.Resync.StartTaps` | src/astaire.cpp:572-585 | the threads created, and the resynced count raised by the buckets of the successful ones |
| `ResyncEngine.Resync.JoinTaps` | src/astaire.cpp:587-611 | blacklisting thread by thread, in any order, strikes off the round's banned names; the unstreamed set loses exactly the streamed buckets |
| `ResyncEngine.Resync.OneRound` | src/astaire.cpp:567-611 | one round takes the taps off, starts and joins them, and leaves the specified next list |
| `ResyncEngine.Resync.ProcessWorklist` | src/astaire.cpp:554-623 | the loop runs exactly the specified rounds; it reports failure if and only if some bucket had no joined tap reporting success |
| `ResyncEngine.Resync.DoResync` | src/astaire.cpp:453-482 | the same for a whole resync from the view, with the progress bound and the statistics reset |
| `Resync.RoundMerges` | src/astaire.cpp:554-623 | the rounds cut from a work list meet the conditions of the merge |
| `Resync.RoundReports` | src/astaire.cpp:587-611 | the names blacklisted after a round are those of the joined servers that misbehaved, and the empty one if a join failed |
| `Resync.ResyncMerges` | src/astaire.cpp:554-623 | all rounds together leave under every key the merge of its old record with all records handled for it; other keys are untouched |
| `Resync.ResyncKeepsNewest` | src/astaire.cpp:279-398 | for every work list, all server behaviour, all failures to start or join threads and every interleaving, each key ends with the newest of its old record and all records handled for it |
| `Resync.HandledIffDelivered` | src/astaire.cpp:201-398 | the records handled for a key are exactly those streamed for it, before anything that is no mutation, by a server that was reached in a round in which it was asked for the key's bucket |
| `Resync.ResyncLeavesNewestDelivered` | src/astaire.cpp:279-398 | so after every undisturbed resync the record is the old one or one that was so streamed, value, flags and expiry alike, and none of them is newer |
| `Resync.CompleteResync` | src/astaire.cpp:489-623 | if all listed servers behave, no source of a bucket streams a record newer than what the local node ends up with |
| `Resync.UndisturbedExists` | src/astaire.cpp:554-623 | for every work list, store and behaviour of the servers there are schedules under which every round runs to its end undisturbed |
| `Resync.CompleteResyncApplies` | src/astaire.cpp:489-623 | the premises of the complete resync can be met for every work list and store and all streams of mutations within a window |
| `Resync.OneSourceIsFetched` | src/astaire.cpp:554-623 | an empty node whose one source has one record ends up with that record's value, flags and expiry |
| `ControlThread.TagSoundness` | src/astaire.cpp:125-186 | in every run with answered requests and restarts only at waits, crashes included, a tag implies a full resync run to its end since memcached's last restart, and there is no tag during a full resync |
| `ControlThread.CrashRestartsFullResync` | src/astaire.cpp:125-186 | after a crash inside a full resync every continuation runs a full resync to its end before the thread waits |
| `ControlThread.NothingPendingOnWait` | src/astaire.cpp:125-186 | in every run both request flags are clear when the thread goes to wait |
| `ControlThread.NoLostTrigger` | src/astaire.cpp:90-186 | a signal that is taken - a reload with a readable configuration, or a request for a full resync - is followed by a resync before the next wait, a full one if full was asked for, unless the process crashes |
| `ControlThread.NoResyncWithoutCause` | src/astaire.cpp:90-186 | in every run a resync begins only after such a signal since the process started, or when a poll finds no tag; a full one only after a request for one, or when a poll finds no tag |
| `ControlThread.TaggedStaysIdle` | src/astaire.cpp:129-182 | with the tag there and nobody asking, polls, lost replies, crashes and unreadable configurations lead to no resync |
| `ControlThread.NoWorkAfterTermination` | src/astaire.cpp:71-88 | after the object has been told to terminate no resync begins |
| `ControlThread.TerminationEnds` | src/astaire.cpp:129-186 | and two steps of the thread are enough for it to end |
| `ControlThread.UnsoundTagIff` | src/astaire.cpp:125-186 | with restarts and lost replies anywhere in a pass, exactly when it leaves an unsound tag |
| `ControlThread.TagSoundIff` | src/astaire.cpp:125-186 | over every run with signals, crashes, lost replies and restarts anywhere, the tag is sound at every point if and only if no pass writes its tag after a restart since its poll, or after an unanswered poll for a minimal resync while memcached was not in sync |
| `ControlThread.PassIsARun` | src/astaire.cpp:129-182 | a pass is a run of the machine's steps |
| `ControlThread.UnsoundTagHappens` | src/astaire.cpp:161-169 | a run with a restart during a minimal resync that ends waiting, tagged and not in sync |
| `ControlThread.Astaire.ReloadConfig` | src/astaire.cpp:90-102 | the flag is the machine's Reload step |
| `ControlThread.Astaire.TriggerFullResync` | src/astaire.cpp:104-116 | the flags are the machine's TriggerFull step |
| `ControlThread.Astaire.TakeRequests` | src/astaire.cpp:131-153 | the loop body up to the poll is the machine's |
| `ControlThread.Astaire.PollAndResync` | src/astaire.cpp:155-182 | the poll, the resync and the tag are the machine's |
| `ControlThread.Astaire.ControlPass` | src/astaire.cpp:129-182 | the loop body is one pass of the machine; exactly when it resyncs and exactly when fully |
| `Replication.FirstHolder` | src/memcached_backend.cpp:280-335 | the index found has the key on a working replica, and no working replica before it has |
| `Replication.FirstUp` | src/memcached_backend.cpp:440-545 | the index found works, and none before it does |
| `Replication.Backend.ReadData` | src/memcached_backend.cpp:256-397 | the retry loop with its counters gives the specified reading for every list and failure pattern; the bucket is marked FAILED exactly on TEMPORARY_FAILURE |
| `Replication.Backend.ConditionalWrite` | src/memcached_backend.cpp:431-555 | the first working replica, and no other, gets the conditional write |
| `Replication.Backend.UnconditionalWrites` | src/memcached_backend.cpp:557-580 | the working replicas after it are all set |
| `Replication.Backend.WriteData` | src/memcached_backend.cpp:400-616 | the two together are the specified write, of an item whose flags are the low 32 bits of the time in milliseconds; other op codes are refused without effect |
| `Replication.Backend.DeleteData` | src/memcached_backend.cpp:619-670 | the loop is the specified delete on all read replicas |
| `Replication.StatusCodes` | src/memcached_backend.cpp:713-737 | the status codes by their numbers |
| `Refinement.ReadStatusExact` | src/memcached_backend.cpp:256-397 | exactly when a read answers NO_ERROR, KEY_NOT_FOUND or a failure, on any contents and failures, the sole-replica exception included |
| `Refinement.RespondsMeans` | src/memcached_backend.cpp:277-300 | which replicas take part: those whose exchange works, and a sole one also at the second attempt after a failed connection |
| `Refinement.ReadAnswers` | src/memcached_backend.cpp:256-397 | on any, also divergent, contents a read that finds a record gives the value of the first replica to respond with one, and its CAS, or 0 if one has responded before it |
| `Refinement.AnswerReportedAsFailure` | src/memcached_backend.cpp:277-360 | a sole replica that answers NOTFOUND on the retry, reported as TEMPORARY_FAILURE |
| `Refinement.SetAllHolds` | src/memcached_backend.cpp:557-580 | unconditional writes reach every working replica in the list and nothing else |
| `Refinement.WriteHolds` | src/memcached_backend.cpp:431-616 | after a successful write all responding replicas hold the item; no other key changes anywhere; an unsuccessful one changes nothing |
| `Refinement.WriteAnswers` | src/memcached_backend.cpp:431-616 | on any contents a write answers what the first replica to respond says of ADD, SET and REPLACE with its CAS, and a failure if none responds |
| `Refinement.WriteSpares` | src/memcached_backend.cpp:431-580 | a replica that does not respond is not written to |
| `Refinement.CasFitsNextWrite` | src/memcached_backend.cpp:268-580 | on any, also divergent, contents, if the same replicas respond to a read and the write after it (a sole replica perhaps only on the retry, in either): REPLACE with a nonzero CAS from the read succeeds; ADD succeeds after a zeroed CAS or KEY_NOT_FOUND; all responding replicas then hold the item |
| `Refinement.DeleteContents` | src/memcached_backend.cpp:619-670 | a delete clears the key on every replica it reached and nothing else |
| `Refinement.DeleteStatus` | src/memcached_backend.cpp:619-670 | NO_ERROR exactly when a reached replica had the record, else the fate of the last replica |
| `Refinement.LastFailureIsReported` | src/memcached_backend.cpp:650-667 | a delete that reports a failure although a replica said KEY_NOT_FOUND |
| `Refinement.StepRefines` | src/memcached_backend.cpp:256-670 | each operation on agreeing replicas answers exactly as one map would whose CAS values are those of the first running replica, and keeps them agreeing with that map |
| `Refinement.BackendIsOneMap` | src/memcached_backend.cpp:256-670 | the same over every serial run in which replicas stop for good and each bucket keeps one running |
| `LostUpdates.StepRecords` | src/memcached_backend.cpp:431-670 | an operation gives the key's record on the deciding replica a new CAS, or removes it, exactly if it is a successful write or a delete of the key |
| `LostUpdates.RecordTracksRun` | src/memcached_backend.cpp:431-670 | while the replica deciding about a key runs it goes on deciding, and its record is unchanged unless the run touched the key |
| `LostUpdates.NoLostUpdate` | src/memcached_backend.cpp:256-616 | while the replica that answered a read runs, REPLACE with the CAS of that read succeeds if and only if nobody wrote or deleted the key since; a success in spite of that happens exactly when that replica has stopped and the record on the one deciding now has the same CAS |
| `LostUpdates.LostAfterFailOver` | src/memcached_backend.cpp:431-580 | a run of read, another client's SET, stop of the first replica and REPLACE in which the SET is lost |
| `CommStates.CommMonitor.UpdateVBucketCommState` | src/memcached_backend.cpp:201-245 | the counter stays the number of FAILED buckets, its positive-count guard never decides, and a due alarm tells whether any bucket is FAILED |
| `CommStates.CounterAgrees` | src/memcached_backend.cpp:201-245 | after every sequence of updates, each of which moves the counter by at most one, the counter is the number of failing buckets, and each bucket is as its last update said |
| `CommStates.AlarmsAreApart` | src/memcached_backend.cpp:201-245 | on a clock that does not go back alarm updates are more than 30 s apart |
| `CommStates.AlarmSentIff` | src/memcached_backend.cpp:230-241 | on such a clock a call sends an alarm update if and only if it comes more than 30 s after all calls that have sent one |
| `CommStates.AlarmsAreTrue` | src/memcached_backend.cpp:201-245 | every alarm update, decided by the counter, sets the alarm exactly when some bucket's last update up to that call was a failure |
| `BackendAlarm.FailureMeansUnreached` | src/memcached_backend.cpp:256-616 | a read or write fails exactly if no replica took part, or the sole one was reached by a second attempt at reading and had no record |
| `BackendAlarm.ReadAndReport` | src/memcached_backend.cpp:330-395 | a read reports its bucket as failing exactly if it failed |
| `BackendAlarm.WriteAndReport` | src/memcached_backend.cpp:582-616 | a write does so too; an op code that is not supported is not reported |
| `BackendAlarm.AlarmTellsOfOperations` | src/memcached_backend.cpp:201-245 | over every sequence of reads and writes, on any contents and with any failures, an alarm update sets the alarm exactly if some bucket was out of reach when it was last read or written |
| `Proxy.ParsedClassMatches` | src/memcached_tap_client.cpp:66-133 | every message of every stream is of the class its op code's handler casts to |
| `Proxy.ServedIff` | src/proxy_server.cpp:226-310 | by the bytes, requests with op codes 0x00 to 0x04, 0x0b and 0x0c are served one after another; anything else is the end |
| `Proxy.VersionText` | src/proxy_server.cpp:262-270 | the version that is reported |
| `Proxy.HandleGet` | src/proxy_server.cpp:321-345 | the response carries what reading the replicas gives, and the key if it was a GETK |
| `Proxy.HandleSetAddReplace` | src/proxy_server.cpp:347-364 | carries out exactly the write of the request |
| `Proxy.HandleDelete` | src/proxy_server.cpp:366-378 | carries out exactly the delete of the request |
| `Proxy.Dispatch` | src/proxy_server.cpp:236-284 | each op code is one operation of the deployment and its response |
| `Proxy.NextRequest` | src/proxy_server.cpp:226-310 | takes the next request off the stream, or ends at QUIT, an unknown op code, a response or the end of the stream |
| `Proxy.ConnectionThread` | src/proxy_server.cpp:217-319 | for every chunking exactly the requests before the first message that ends the connection are carried out, each answered once, in order; if sending a response fails, its request has been carried out and nothing after it |
| `Proxy.ResponsesMatch` | src/proxy_server.cpp:321-378 | every response has its request's opaque value, and its op code exactly unless it is a GETK with an empty key |
| `ClientCas.RowTracks` | src/memcached_backend.cpp:431-670 | over a row of requests the deciding replica's record of a key is unchanged unless a request wrote or deleted the key, and then has a new CAS or is gone |
| `ClientCas.CasTellsInRow` | src/memcached_backend.cpp:256-616 | while the same replica decides about a key its CAS is the same at two requests if and only if no request in between was answered as having written the key, or deleted it |
| `EndToEnd.ServedAsOneMap` | src/proxy_server.cpp:217-378 | while each bucket keeps a running replica every conversation - op codes, opaque values, keys, statuses, values and CAS - is one a single memcached could have had, but for other CAS values after a fail-over, and the running replicas end up holding that map |
| `EndToEnd.ReplaceAfterGet` | src/proxy_server.cpp:321-364 | in every such conversation a REPLACE with the CAS of an earlier GET succeeds if and only if no request in between has written or deleted the key, as long as the same replica decides |
| `EndToEnd.RequestsArrive` | src/memcached_tap_client.cpp:66-165 | what a client prints is, request by request, what the connection thread takes off the stream |
| `EndToEnd.PrintedResponse` | src/memcached_tap_client.cpp:66-304 | the packet of every response carries its op code, opaque value, status, CAS, key and value |
| `EndToEnd.ResponsesArrive` | src/memcached_tap_client.cpp:66-165 | the bytes of the responses are parsed into one response each, in order, with op code, opaque value, status, CAS and key, and for a GET the value |
| `EndToEnd.Session` | src/proxy_server.cpp:217-319 | all together, from the client's requests through any chunking, the replicas and any chunking of the response bytes to the responses the client receives, also when a send fails |
| `EndToEnd.SetThenGet` | src/proxy_server.cpp:217-378 | a session on an empty deployment of one replica: what a client sets it gets back, for every key and value that can be sent |

## Left out

- Resync.ResyncKeepsNewest: assumes rounds in which the local node answers, no client writes and every created thread, joined or not, comes to its end; what holds with clients, lost replies or a thread that outlives its round is in `TapSafety` and `TapRaces`.
- Resync.CompleteResync: success of a tap does not mean that the server sent all its data (src/astaire.cpp:237-255), so the claim is about what was streamed.
- ControlThread.TagSoundness: "full" is relative to the view held at the time; the thread starts before the first configuration is loaded (src/astaire.cpp:56-61).
- Connections.Connection.Recv: streams with malformed packets, or packets within 16384 bytes of 2^32, are excluded, since the parser has no defined result or never completes.
- Connections.Connection.Send: a send that takes only part of the bytes, which the program does not notice.
- EndToEnd.Session: the program's own parser makes a plain response, without its value, of a GETK response; that its packet carries the value is stated of the packet.
- Replication.Backend.ReadData: over an empty replica list the program leaves the CAS unassigned; the model has 0. A failed exchange is taken to have had no effect on the replica, and the unconditional writes to be done when the operation returns.
- Refinement.WriteHolds: a replica that carries out a write whose reply is lost, because the one-map property is promised for replicas that stop between operations.
- Refinement.BackendIsOneMap: read and write lists are equal and the view is fixed.
- The local node refuses an ADD or REPLACE of a tap only for existence or CAS when it answers; the program does not read these result codes (src/astaire.cpp:369-397).
- memcached itself: CAS values are fresh and do not wrap at 2^64, records do not expire, ADD on an existing record answers KEY_EXISTS and REPLACE without one KEY_NOT_FOUND.
- The hash of a key, `MemcachedStoreView` and reading the configuration: their results are arguments.
- Sockets, address resolution, connection pools, libmemcached, memory ownership.
- Statistics other than total and resynced buckets, their refresh and reporting; byte counters; alarm transport, logging, option parsing.
- Several connection threads at once on one backend, and view changes during an operation.
- SET_VBUCKET messages (src/memcached_tap_client.cpp:375-380): neither program sends or receives one.
