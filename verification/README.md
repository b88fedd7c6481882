# Shared-memory RPC and governance: a verified model

The repository carries remote calls between processes over shared memory, and puts a policy decision on top of
one of them. This project models that stack from the bytes up and proves what each layer promises the next.

- **The ring** (`Ring*.dfy`, `Region.dfy`). A single-producer single-consumer ring with 64-bit indices that
  wrap. `Ring.dfy` has the ring as an object over a byte array; `RingProtocol.dfy` has producer and consumer as
  two threads in which every atomic load, every atomic store and every byte written is a step of its own, and
  proves that all interleavings refine a FIFO queue.
- **Frames and the endpoint** (`Wire.dfy`, `ModuleProtocol.dfy`, `CodecRules.dfy`, `Client.dfy`, `Delivery.dfy`). The
  64-byte frame header and the 40-byte AMOD envelope are canonical bijections onto exactly what the codecs accept. An
  endpoint's emits, written byte by byte through the ring, are delivered by the peer's polls in order and once each.
- **Calls** (`Fragments.dfy`, `Runtime*.dfy`, `ModuleServer.dfy`, `ModuleCaller.dfy`, `RequestRoundTrip.dfy`,
  `SendableReplies.dfy`, `RpcRoundTrip.dfy`, `RpcExample.dfy`). The serving loop and its handler goroutines are
  a state machine whose steps make at most one access to what they share; `ModuleServer.dfy` has the loop as code
  and proves that every execution of it is a run of the machine. Invariants over all runs bound the tables, tie
  assemblies and handler starts to the fragments received, say exactly what becomes of every handler's answer, and
  balance requests against replies. At the top,
  `RpcRoundTrip.CallReturnsTheAnswer`: what a caller gets back is what the handler answered for exactly the
  bytes the caller sent.
- **Governance** (`Governance*.dfy`). The policy request and response as byte layouts, the Go service, the C
  adapter and the C stage that compacts the calls of a parsed response in place. Both handlers compute the same
  function of the request bytes; encode, decide, decode and compact together are a plain filter; and the stage
  fails closed for every behaviour of the provider.

Integers are unbounded in the model. Widths are subset types (`uint16`, `uint32`, `uint64`), and wherever the
sources wrap or narrow, `Wrap32`, `Wrap64` or `WrapInt64` says so. Bitwise operators are defined bit by bit in
`Bits.dfy`. Mutable buffers are arrays; `Splice` describes what a write leaves.

What the code does not promise is stated as such, with an input and the exact condition.

- Attaching a queue pair does not make its rings disjoint (`Region.AttachedRingsCanOverlap`); they are exactly when
  the headers keep them apart (`Region.ApartExactly`), as the layout does. An admissible ring always fits a signed
  64-bit size, a pair of them need not (`Region.QpairCanOverflow`, `Region.QpairLayout`).
- A poll's slice of a payload can fault (`Client.WrappedEndFaults`), exactly for inline frames whose end wraps to
  within the slot (`Client.FaultsExactly`).
- A call whose event kind is one of the two the host answers on takes a module's reply for the host's refusal
  (`ModuleCaller.HostKindHidesReply`); for every other kind it does not (`ModuleCaller.ReplyRoundTrip`).
- The size check of a call looks at 32 bits of the length (`ModuleCaller.SizeCheckNarrows`: which lengths pass). A
  request that slips through starts a handler on its last part, exactly when that fits and is admitted
  (`RequestRoundTrip.OversizedStartsOnTail`; `RequestRoundTrip.FourGigabytes` for one of 2^32 bytes).
- Sixteen requests left unfinished keep every other request out for as long as nothing more is heard of them
  (`RuntimeStarvation.FullTableStartsNothing`); sixteen frames from the start are an input
  (`RuntimeStarvation.SixteenKeepOthersOut`). A send leaves an assembly open exactly when it stops after some fragment
  that found room and before its last (`RuntimeStarvation.AbortedSendStaysOpen`).

## Model

| member | source | states |
|---|---|---|
| Bits.PowerOfTwoTest | server-go/bus/ring.go:59-59 | `x & (x-1) == 0` accepts exactly the powers of two |
| Bits.MaskIsRemainder | server-go/bus/ring.go:88-91 | masking an index with capacity minus one is the remainder modulo the capacity |
| Bits.MaskOfFlags | src/modules/governance/include/aimee/governance/module_api.h:62-76 | a mask within its bits is determined by its flags, and its popcount is the number of set flags |
| RingLayout.SlotBounds | server-go/bus/ring.go:88-91 | every 64-bit index names a slot past the header and inside the ring |
| RingLayout.SlotsOverlapIffCongruent | server-go/bus/ring.go:88-91 | two indices share bytes only when congruent modulo the capacity, and then name the same slot |
| RingLayout.NearbySlotsApart | server-go/bus/ring.go:88-91 | indices less than the capacity apart name disjoint slots, also across the 64-bit wrap |
| RingLayout.WriteKeepsQueue | server-go/bus/ring.go:93-103 | bytes written between begin and commit leave the queue of published slots as it was |
| RingLayout.PublishAppends | server-go/bus/ring.go:105-109 | storing head+1 appends exactly the slot at the old head, wraparound included |
| RingLayout.ReleaseDrops | server-go/bus/ring.go:122-126 | storing tail+1 drops exactly the oldest slot, wraparound included |
| Ring.SoundSizeFits | server-go/bus/ring.go:63-66 | for an admissible shape the size computed in signed 64-bit arithmetic is the true one |
| Ring.AttachIsSound | server-go/bus/ring.go:46-75 | an attach succeeds exactly for a header that describes a sound ring which really fits the mapping, with consistent indices |
| Ring.AttachRing | server-go/bus/ring.go:46-75 | the attach as code: a ring object exactly when those tests pass, valid and of the header's shape, nothing written |
| Ring.Ring.ProduceBegin | server-go/bus/ring.go:93-103 | none exactly when the queue is full, else the slot at the head; nothing changes |
| Ring.Ring.ProduceCommit | server-go/bus/ring.go:105-109 | the queue gains exactly the slot begun; no byte outside the ring changes |
| Ring.Ring.ConsumeBegin | server-go/bus/ring.go:111-120 | none exactly when the queue is empty, else the bytes of its first element |
| Ring.Ring.ConsumeCommit | server-go/bus/ring.go:122-126 | the queue loses exactly its first element; no byte outside the ring changes |
| RingInit.InitRing | server-go/bus/ring.go:128-149 | lays out an empty attachable ring exactly for an admissible shape that fits; bytes behind it stay |
| RingProtocol.StepRefinesQueue | server-go/bus/ring.go:83-126 | every single load, store and byte write of either side, from stale snapshots too, is a step of a queue; refusals happen exactly on full and on empty |
| RingProtocol.RunIsFifo | server-go/bus/ring.go:83-126 | over every interleaving: published = released + queue, at most capacity in between, histories only grow |
| RingProtocol.AttachedIsFifo | server-go/bus/ring.go:46-75 | every attached ring is a state the interleavings can start from |
| RingProtocol.HeldSlotIsFrozen | server-go/bus/ring.go:111-126 | the slot a consumer holds keeps its bytes through any number of steps until its own tail store |
| RingProtocol.HeldSlotsApart | server-go/bus/ring.go:93-120 | a slot being filled and a slot being read share no byte |
| Region.QpairLayout | server-go/bus/client.go:329-335 | the computed mapping size is the true one exactly when that is a signed 64-bit number; the two rings then are aligned, disjoint and fit |
| Region.QpairCanOverflow | server-go/bus/client.go:329-335 | a shape for which each ring attaches but the pair's size overflows |
| Region.AttachQueuePair | server-go/bus/region.go:92-113 | both rings, valid and in one mapping, exactly when the header names two different offsets with an attachable ring at each; they are disjoint exactly when the headers keep them apart |
| Region.ApartExactly | server-go/bus/region.go:99-112 | two rings that attach share no byte exactly when, by header fields, one ends before the other begins |
| Region.ApartIsolates | server-go/bus/region.go:99-112 | exactly then no write into the inbound ring, whatever its bytes, reaches the outbound one |
| Region.AttachedRingsCanOverlap | server-go/bus/region.go:99-112 | an 832-byte mapping that attaches although byte 320 belongs to both rings |
| Region.LayoutKeepsRingsApart | server-go/bus/client.go:329-335 | the layout's offsets with the layout's shape keep the rings apart |
| Wire.Encode | server-go/bus/wire.go:164-189 | writes exactly the header of a valid frame, or nothing |
| Wire.DecodeOfHeader | server-go/bus/wire.go:164-218 | decode after encode: a valid frame survives whatever follows it |
| Wire.HeaderOfDecoded | server-go/bus/wire.go:164-218 | encode after decode: an accepted header is the only spelling of its frame |
| Wire.PatternsExclude | server-go/bus/wire.go:114-158 | a valid frame carries one message pattern only |
| Wire.CorrelatedUnlessNotification | server-go/bus/wire.go:114-158 | valid requests, replies and cancels name a correlation, notifications none |
| Wire.PlacementIsInsideSlot | server-go/bus/wire.go:223-246 | an inline placement passes exactly when the payload really lies between header and slot end |
| CodecRules.ValidExactly | server-go/bus/wire.go:112-158 | exactly which frames the codec accepts, in terms of the numbers in the header, and which error any other gets |
| CodecRules.PlacementExactly | server-go/bus/wire.go:223-246 | exactly which placements pass, inline, arena and none |
| CodecRules.HeaderLayout | server-go/bus/wire.go:176-189 | where each field lies in the 64 bytes, and the magic in front |
| CodecRules.FrameDecodesExactly | server-go/bus/wire.go:191-218 | a slot decodes to a frame exactly when its first 64 bytes spell it and the rules allow it |
| ModuleProtocol.EncodeMessage | server-go/bus/module_protocol.go:58-74 | writes exactly the envelope of a valid message, or nothing |
| ModuleProtocol.DecodeOfEnvelope | server-go/bus/module_protocol.go:58-95 | decode after encode, with the body that follows |
| ModuleProtocol.EnvelopeOfDecoded | server-go/bus/module_protocol.go:48-95 | an accepted envelope is valid and the only spelling of its message |
| CodecRules.EnvelopeLayout | server-go/bus/module_protocol.go:58-74 | where each field lies in the 40 bytes, with magic, version and length in front |
| CodecRules.MessageDecodesExactly | server-go/bus/module_protocol.go:76-95 | a payload decodes to a message exactly when its first 40 bytes spell it, its fields are in range and its body is there |
| Client.DecodeOfWritten | server-go/bus/client.go:205-219 | what one side writes into a slot, whatever it held, the other side reads back as the same event |
| Client.OutFrameMeaning | server-go/bus/client.go:205-214 | an emitted frame, field by field: kind, correlation, sender, pattern and more flag survive, inline and a reference past the header mark a payload, the rest is zero |
| Client.CheckedPlacementIsSliceable | server-go/bus/wire.go:223-246 | a frame whose placement was checked, inline or in the arena, never makes a poll's slice fault |
| Client.FaultsExactly | server-go/bus/client.go:299-302 | a poll's slice is out of range exactly for inline frames whose end runs past 2^64 and wraps to within the slot; for all others the guard is the true range test |
| Client.WrappedEndFaults | server-go/bus/client.go:299-302 | such a frame: valid, two bytes at offset 2^64-1, refused by the placement check and passed by the guard |
| Client.PollTestAgainstPlacement | server-go/bus/client.go:299-301 | exactly which frames pass a poll's end test although a placement check refuses them |
| Client.Client.Emit | server-go/bus/client.go:188-220 | the first refusal in order, or one more outbound slot that decodes to the event; a payload over the budget or the slot is refused and nothing is published, so that what is published fits both; the inbound ring untouched |
| Client.Client.RequestFragment | server-go/bus/client.go:234-246 | a request fragment refused outright, refused by the emit, or sent under the right flags |
| Client.Client.ReplyFragment | server-go/bus/client.go:255-267 | the same for a reply fragment |
| Client.Client.Cancel | server-go/bus/client.go:270-275 | a cancel needs a correlation and carries no payload |
| Client.Client.Poll | server-go/bus/client.go:279-305 | releases the slot held before, returns what the next one decodes to and holds it; an undecodable slot is skipped; outbound untouched; asked of the next slot is only that the slice does not fault |
| Client.ClientOver | server-go/bus/client.go:148-157 | over every mapping: a client exactly when the queue pair attaches, whose geometry holds exactly when the headers keep the rings apart and their slots have the size told, with room for a frame |
| Delivery.WritesFillSlot | server-go/bus/client.go:205-219 | the byte writes of an emit, in their order, leave exactly header and payload of whatever the slot held |
| Delivery.StepKeepsSound | server-go/bus/client.go:188-305 | every single step of emit or poll keeps: the slot being filled holds the writes so far, published slots carry their emits, and what was returned is what the slots dealt with decode to |
| Delivery.DeliveryIsDecodableSubsequence | server-go/bus/client.go:279-305 | over every interleaving, from any attached ring, foreign and undecodable slots mixed in: what polls returned is a prefix of what was published, short of it by exactly the slots not yet dealt with |
| Delivery.EmitsAreDelivered | server-go/bus/client.go:188-305 | from an empty ring with only emits publishing, byte by byte: what polls returned is a prefix of the emits that went through, in order and once each, and all of them once nothing is unread |
| Fragments.CutIsFaithful | server-go/bus/module_caller.go:134-163 | for every body and chunk size the fragments join to the body, each fits, each decodes to the same stream, only the last is final |
| Fragments.CutCount | server-go/bus/module_caller.go:142-160 | one fragment for the empty body, else the length over the chunk rounded up |
| Fragments.RefusalsCarryNothing | server-go/bus/module_runtime.go:223-230 | a reply that is not OK is one final fragment without a body |
| Fragments.ReplySays | server-go/bus/module_runtime.go:223-275 | every fragment of a reply carries the kind, correlation, stage and trace it answers and the status sent |
| Fragments.WhatIsSent | server-go/bus/module_runtime.go:223-230 | which status and body are sent: an unknown status or too long a body is an internal error, and only OK has a body |
| RuntimeTables.StepKeepsTables | server-go/bus/module_runtime.go:286-427 | every step keeps: jobs are the disjoint union of running handlers and waiting results, at most 16; assemblies at most 16 with bodies within the limit, none for a job's correlation |
| RuntimeTables.RunKeepsTables | server-go/bus/module_runtime.go:293-429 | the same for every run |
| RuntimeTables.SendNeverBlocks | server-go/bus/module_runtime.go:220-220 | in every reachable state a decided handler can send, also after the loop has returned |
| RuntimeShutdown.ShutdownStepsAreFinite | server-go/bus/module_runtime.go:314-325 | every step during a shutdown brings its end closer |
| RuntimeShutdown.ShutdownIsNeverStuck | server-go/bus/module_runtime.go:314-325 | until a shutdown is over, the loop or some handler can move |
| RuntimeShutdown.ShutdownReceivesEachJobOnce | server-go/bus/module_runtime.go:314-325 | a shutdown receives one result per job and nothing else, and ends with nothing running or waiting |
| RuntimeShutdown.CancelBeforeLoadWins | server-go/bus/module_runtime.go:196-221 | a flag stored before the handler's load makes every later result of that work Cancelled and empty, whatever the answer or the clock |
| RuntimeShutdown.CancelIsLocal | server-go/bus/module_runtime.go:346-352 | a cancel changes only its own correlation's flag and assembly, and replies nothing |
| RuntimeShutdown.FlagNeedsOwnCancel | server-go/bus/module_runtime.go:346-352 | over every run, a serving loop's live job has its flag set only if a cancel for its own correlation was polled after its start |
| RuntimeLog.StepKeepsLedger | server-go/bus/module_runtime.go:286-427 | every step keeps, for every correlation: open assembly = fold of accepted fragments since the last reset; starts are such folds; final replies + live job = questions |
| RuntimeLog.RunKeepsLedger | server-go/bus/module_runtime.go:293-429 | the same for every run |
| RuntimeLog.ReachableStates | server-go/bus/module_runtime.go:293-429 | tables, folds, starts and reply conservation in every state reachable from the start |
| RuntimeOutcome.EveryResultFollows | server-go/bus/module_runtime.go:196-221 | over every run, every result follows exactly from what its handler returned: empty and Cancelled if the flag was set when loaded, else empty and DeadlineExceeded if the deadline had passed when the clock was read, else the answer |
| RuntimeStreams.StartsAreOneStream | server-go/bus/module_runtime.go:357-427 | over every run, a handler's body is joined from fragments that all were invokes of its correlation, kind, stage, deadline and trace, the stage being the table's for the kind |
| RuntimeStreams.InvalidExactly | server-go/bus/module_runtime.go:357-371 | exactly which requests are refused as invalid |
| RuntimeStreams.BreakingIsRefused | server-go/bus/module_runtime.go:357-377 | such a request is answered by one empty INVALID_REQUEST fragment and closes its assembly; nothing else changes |
| RuntimeStreams.ResultSays | server-go/bus/module_runtime.go:286-291 | a result is replied to under the kind, correlation, stage and trace of its work |
| RequestRoundTrip.FragmentsStart | server-go/bus/module_runtime.go:357-427 | for a request of any length and tables in any state at any of its fragments: exactly which body, if any, a handler starts on |
| RequestRoundTrip.RequestStartsOneHandler | server-go/bus/module_runtime.go:357-427 | the fragments of any request within the limit, cut for any budget and mixed with other traffic, start one handler on exactly that request if the first finds room and the last is admitted, whatever jobs, clock and room were at the others; without admission none starts |
| RequestRoundTrip.FragmentVerdict | server-go/bus/module_runtime.go:357-427 | the decision on one fragment of a served stream, for every state of both tables, every length and either clock |
| RequestRoundTrip.RequestSays | server-go/bus/module_caller.go:134-163 | every fragment of a request carries the call's kind, correlation, stage, deadline and trace |
| RequestRoundTrip.OversizedStartsOnTail | server-go/bus/module_runtime.go:384-412 | with room for its assemblies a request of any length starts a handler on its last cycle (a cycle being the pieces that fit and the one refused), exactly if that fits the limit and is admitted |
| RequestRoundTrip.DroppedIsCycles | server-go/bus/module_runtime.go:384-392 | what is dropped before that are whole cycles |
| RequestRoundTrip.FourGigabytes | server-go/bus/module_runtime.go:384-412 | of a request of 2^32 bytes in pieces of 64, which bytes those are |
| RuntimeStarvation.FullTableStartsNothing | server-go/bus/module_runtime.go:372-382 | with sixteen assemblies open and no event of theirs, they all stay open and no handler starts for any correlation, over any run |
| RuntimeStarvation.SixteenKeepOthersOut | server-go/bus/module_runtime.go:372-382 | from the start and for any served kind, a run of sixteen frames that slots decode to opens sixteen assemblies, and no run that goes on from there without their correlations starts a handler |
| RuntimeStarvation.AssemblyStays | server-go/bus/module_runtime.go:346-382 | an open assembly stays as it is until an event of its own correlation: it never times out |
| RuntimeStarvation.AbortedSendStaysOpen | server-go/bus/module_caller.go:114-116 | a send of which `k` fragments got through leaves its assembly open exactly when they do not include the last and one of them found room in the table |
| SendableReplies.ValidateModuleConfig | server-go/bus/module_runtime.go:112-128 | accepts exactly named processes with stages that have no zero and no event kind twice, and returns exactly their table, which names no stage zero |
| SendableReplies.FlagWords | server-go/bus/client.go:234-267 | the four flag words fragments travel under, group by group |
| SendableReplies.FragmentIsSendable | server-go/bus/client.go:188-220 | a decodable fragment with a correlation that fits a sound budget becomes a valid frame that fits the slot |
| SendableReplies.OnlyWaitingIsLeft | server-go/bus/client.go:188-220 | handing it to the endpoint fails only by a changed epoch or a full ring, and exactly then |
| SendableReplies.PolledFramesAreValid | server-go/bus/client.go:279-305 | a polled event's frame is valid |
| SendableReplies.EveryReplyIsSendable | server-go/bus/module_runtime.go:223-284 | over every run on decoded frames, every fragment the loop handed out was sendable |
| SendableReplies.SeenFragmentDelivers | server-go/bus/client.go:234-305 | an emitted fragment, once polled, is what the receiving loop takes for that fragment |
| SendableReplies.CutIsSeen | server-go/bus/client.go:234-305 | every fragment of every body the codec accepts, for any sound geometry, is polled as an event that some slot decodes to |
| ModuleServer.SendRetrying | server-go/bus/module_runtime.go:249-270 | a fragment is taken once or not at all, as the attempts decide; full rings are waited out |
| ModuleServer.ReplyModuleResult | server-go/bus/module_runtime.go:223-275 | what is emitted is the one fragment sequence up to the first failing attempt, whose error is returned; all of it exactly when there is none |
| ModuleServer.OnlyFullIsAllTaken | server-go/bus/module_runtime.go:249-270 | any finite pattern of full rings delays a reply but never stops it |
| ModuleServer.BreakEndsReply | server-go/bus/module_runtime.go:249-270 | the first failure, or full ring with the context done or the epoch changed, ends a reply with its error, after exactly the fragments taken before it |
| ModuleServer.ModuleServer.InvalidModuleRequest | server-go/bus/module_runtime.go:277-284 | refuses with a status and a stage that is never zero |
| ModuleServer.ModuleServer.FinishModuleWork | server-go/bus/module_runtime.go:286-291 | is the machine's collect step: one result, its job, its reply |
| ModuleServer.ModuleServer.HandleEvent | server-go/bus/module_runtime.go:345-427 | is the machine's step on that event, error for error |
| ModuleServer.ModuleServer.AdvanceHandler | server-go/bus/module_runtime.go:196-221 | each phase of a handler goroutine is a machine step, answering what the handler answers |
| ModuleServer.ModuleServer.CollectFinished | server-go/bus/module_runtime.go:303-313 | the draining loop, handlers finishing meanwhile, is a run that polls nothing |
| ModuleServer.ModuleServer.Shutdown | server-go/bus/module_runtime.go:314-323 | ends, as a run, with no job left, wherever handlers move meanwhile |
| ModuleServer.ModuleServer.RunModuleClient | server-go/bus/module_runtime.go:293-429 | every execution, handlers moving between any two accesses of the loop to what they share, is a machine run whose handlers answer as configured; the events polled are exactly those offered, up to where an error stopped it; it returns without error only on context end, with no job left, or a changed epoch |
| ModuleCaller.AwaitJoinsPieces | server-go/bus/module_caller.go:169-223 | waiting over fragments among ignorable arrivals returns what was received followed by the rest |
| ModuleCaller.ReplyRoundTrip | server-go/bus/module_caller.go:169-223 | waiting over the fragments of a reply returns its body or its status, for every event kind but the two the host answers on, where it returns the host's outcome |
| ModuleCaller.WaitEnds | server-go/bus/module_caller.go:169-193 | however much of an answer is there, a wait ends with the error of a failed poll, as cancelled on a done context, and at its deadline |
| ModuleCaller.AnswerDecides | server-go/bus/module_caller.go:194-222 | however much is there: the host's refusals, another status, a piece past the limit and the last piece each decide a wait, and how |
| ModuleCaller.PartialReplyIsPending | server-go/bus/module_caller.go:169-223 | a reply that is not complete, among arrivals that are passed over, decides nothing |
| ModuleCaller.ModuleCaller.Send | server-go/bus/module_caller.go:134-163 | for every budget, stage and length: what is taken is the fragment sequence up to the first refusal, which is returned; a request that makes no valid message fails before anything is offered |
| ModuleCaller.FirstRefusalEndsSend | server-go/bus/module_caller.go:134-163 | pieces are taken up to the first that is refused, whose error is returned |
| ModuleCaller.ModuleCaller.AwaitReply | server-go/bus/module_caller.go:169-223 | the polling loop returns what the schedule of arrivals determines, its deadline counting only if the call has one |
| ModuleCaller.DecidedStays | server-go/bus/module_caller.go:169-223 | a wait that is decided is not changed by anything that arrives later |
| ModuleCaller.ModuleCaller.Call | server-go/bus/module_caller.go:96-130 | for every budget, stage, length and timeout: a fresh correlation per call, the deadline in wrapping arithmetic; a failed send returns its error without a cancel; a wait that fails, or is given up before the answer is complete, cancels |
| ModuleCaller.NeverLate | server-go/bus/module_caller.go:119-122 | a call without a timeout never ends because of its deadline |
| ModuleCaller.LateFromTimeout | server-go/bus/module_caller.go:109-112 | a call is refused as late exactly when its last fragment is polled no earlier than its timeout ends |
| ModuleCaller.HostKindHidesReply | server-go/bus/module_caller.go:194-201 | an OK reply on the host's error kind that the caller returns as a rejection |
| ModuleCaller.SizeCheckNarrows | server-go/bus/module_caller.go:101-103 | exactly which oversized requests the 32-bit size check lets through; 2^32 bytes is one |
| ModuleCaller.OversizedIsSent | server-go/bus/module_caller.go:134-163 | such a request is then sent like any other |
| ModuleCaller.OversizedIsRefused | server-go/bus/module_runtime.go:384-392 | the loop refuses the fragment that carries the sum past the limit and closes the assembly, whatever its tables hold |
| RpcRoundTrip.CollectReplies | server-go/bus/module_runtime.go:286-291 | collecting a result adds exactly its fragments to its correlation's replies and none to another's |
| RpcRoundTrip.StepKeepsUnderway | server-go/bus/module_runtime.go:196-427 | while no event names it, a started job stays live and unanswered, late exactly once its clock was read past the deadline, or is over and answered with its result's fragments |
| RpcRoundTrip.FragmentsAreAnswered | server-go/bus/module_runtime.go:293-427 | whatever the tables hold at any of them, the fragments of a request of any length lead to one piece of work that is underway or answered, or to a refusal with the status it is ruled |
| RpcRoundTrip.CallReturnsTheAnswer | server-go/bus/module_caller.go:96-223 | from any reachable state and for any length, an admitted call starts one handler and returns exactly what that answers for exactly the request sent, whatever the budgets and the other traffic, or DEADLINE_EXCEEDED exactly if the handler read the clock past the deadline; one that finds no room, passes the limit or is not admitted returns the status it is refused with |
| RpcExample.OneFragmentCall | server-go/bus/module_caller.go:96-223 | from the start, for any handler, sound geometry and one-fragment request, a run on decoded frames that meets every condition of a call, and the answer its caller polls as decoded frames |
| GovernanceWire.ParseIffSpells | src/modules/governance/include/aimee/governance/module_api.h:78-164 | a buffer is accepted as a request exactly when it spells it: both round trips of the GOVQ codec |
| GovernanceWire.SpellingIsUnique | src/modules/governance/include/aimee/governance/module_api.h:78-113 | a request has one encoding |
| GovernanceWire.ParseResponseIff | src/modules/governance/include/aimee/governance/module_api.h:166-213 | a response is accepted as a decision exactly when it spells it and accounts for every call |
| GovernancePolicy.DecisionIsConsistent | server-go/modules/governance/governance.go:98-127 | every decision passes the calling side's checks, and its mask is the survivors' flags |
| GovernancePolicy.InactiveKeepsAll | server-go/modules/governance/governance.go:104-106 | an inactive policy drops nothing and leaves the reason |
| GovernancePolicy.ReasonSays | server-go/modules/governance/governance.go:119-125 | the reason a decision carries: `end_turn` if no call is left, what there was or `tool_use` if one is, and what there was without a policy or calls |
| GovernancePolicy.DeniedAre | server-go/modules/governance/governance.go:89-95 | the four denied names, byte for byte |
| GovernancePolicy.AnswerSays | server-go/modules/governance/governance.go:130-148 | status and body for every byte string: INVALID_REQUEST for another stage or no request, CANCELLED, or OK with the decision |
| GovernancePolicy.AnswerRoundTrip | server-go/modules/governance/governance.go:130-148 | for every bounded request the answer to its encoding decodes to the decision on it |
| GovernanceGo.DecodeRequest | server-go/modules/governance/governance.go:53-87 | accepts exactly the buffers that spell a request, and returns it |
| GovernanceGo.Evaluate | server-go/modules/governance/governance.go:98-127 | mask, drops and reason built in the loop are the decision |
| GovernanceGo.Handle | server-go/modules/governance/governance.go:130-148 | status and bytes are the answer to any byte string, any stage, either cancellation state |
| GovernanceApi.Popcount | src/modules/governance/include/aimee/governance/module_api.h:67-76 | the shifting loop counts the set bits |
| GovernanceApi.GetU32 | src/modules/governance/include/aimee/governance/module_api.h:38-44 | or-ing shifted bytes spells the little-endian number |
| GovernanceApi.WithinMask | src/modules/governance/include/aimee/governance/module_api.h:62-65 | no bit outside the allowed mask means a value below two to the count |
| GovernanceApi.EncodeRequest | src/modules/governance/include/aimee/governance/module_api.h:78-113 | succeeds exactly for arguments in bounds, and then the buffer spells the request; bytes past it stay |
| GovernanceApi.DecodeRequest | src/modules/governance/include/aimee/governance/module_api.h:115-164 | for any pointers, NULL included: accepts exactly the buffers that spell a request, and leaves it in the C buffers |
| GovernanceApi.EncodeResponse | src/modules/governance/include/aimee/governance/module_api.h:166-184 | succeeds exactly with room and a reason in bounds, and then writes the response and nothing else |
| GovernanceApi.DecodeResponse | src/modules/governance/include/aimee/governance/module_api.h:186-213 | for any pointers, NULL included: accepts exactly consistent decisions about the call count; a refused buffer leaves the record alone |
| GovernanceApi.Snprintf | src/modules/governance/gw_stage_governance.c:62-62 | as much of the text as fits, terminated |
| GovernanceAdapter.CountDenied | src/modules/governance/module_adapter.c:37-44 | mask and drops over the C name table are those of the decoded names |
| GovernanceAdapter.DeniedAlike | src/modules/governance/module_adapter.c:7-11 | the C side's list denies what the policy denies |
| GovernanceAdapter.StatusSays | src/modules/governance/module_adapter.c:13-56 | the C handler's status, case by case, NULL pointers included |
| GovernanceAdapter.ModuleHandler | src/modules/governance/module_adapter.c:13-56 | for any pointers, NULL included: with room it gives the policy's answer, in the first 56 bytes only; without room it refuses; it ends in an internal error only for a missing response buffer |
| GovernanceAdapter.HandlersAgree | src/modules/governance/module_adapter.c:13-56 | for every byte string, stage and cancellation state the Go and the C handler return the same status and the same 56 bytes |
| GovernanceStage.Compact | src/modules/governance/gw_stage_governance.c:44-61 | the in-place loop leaves the filter by the mask in front, frees exactly the dropped calls' arguments in order, and keeps the rest of the array |
| GovernanceStage.ApplyDecision | src/modules/governance/gw_stage_governance.c:44-63 | the whole new state of response and heap, the number dropped, and that the kept calls still own live distinct blocks |
| GovernanceStage.OwnershipKept | src/modules/governance/gw_stage_governance.c:44-63 | for every mask: each dropped call's block is freed once, no kept call's is, kept blocks stay live and distinct |
| GovernanceStage.OwnedExactly | src/modules/governance/gw_stage_governance.c:44-63 | what owning means: every block is live, and none occurs twice |
| GovernanceStage.ArgsConserved | src/modules/governance/gw_stage_governance.c:44-63 | kept and freed blocks together are the blocks there were |
| GovernanceStage.DecisionValid | src/modules/governance/gw_stage_governance.c:33-42 | accepts exactly terminated, consistent decisions about at most sixteen calls |
| GovernanceStage.AppliedExactly | src/modules/governance/gw_stage_governance.c:33-111 | exactly which decisions are applied, by their numbers; every other leaves no call |
| GovernanceStage.FailClosed | src/modules/governance/gw_stage_governance.c:65-72 | no call is left, every block is freed, the reason is `end_turn` |
| GovernanceStage.RunStage | src/modules/governance/gw_stage_governance.c:77-111 | for every provider behaviour and call count: what is left, freed, reported and said |
| GovernanceStage.StageFailsClosed | src/modules/governance/gw_stage_governance.c:77-111 | what is left is a subsequence of the clamped calls, and empty unless an accepted decision was applied, which then drops as many as it says |
| GovernanceEndToEnd.MaskIsFilter | server-go/modules/governance/governance.go:108-117 | compacting by the decision's mask is the order-preserving filter of allowed calls, and what it drops are the denied ones |
| GovernanceEndToEnd.AskModule | src/modules/governance/include/aimee/governance/module_api.h:78-213 | encode, handle and decode succeed exactly when all texts fit, and give the decision |
| GovernanceEndToEnd.Govern | src/modules/governance/gw_stage_governance.c:77-111 | for every call count, a governed response is the filter of its calls, with exactly the denied calls' blocks freed and no entry of the array left pointing to one; when there are too many calls or a text does not fit, nothing is left; a response that loses all its calls says `end_turn` |

## Left out

- Attach handshake, descriptor passing, mapping and unmapping, connect retries and process start: plumbing
  around the endpoint. The control region appears as its epoch.
- Weak memory and raw pointer casts: atomics are sequentially consistent and a mapping is a byte array.
- Heartbeats, keep-alive, sleeping and logging: no bearing on what is proved. Clocks and the context are values
  the environment supplies.
- The bus host, its routing and arena leases: not in the repository. Where caller meets server, deliveries of
  one correlation are assumed in order.
- Publish, Request and Reply of the endpoint: `Client.Client.Emit` under fixed flags.
- Client.Client.Poll: returns the payload as a value; that its bytes stay put until the next poll is
  `RingProtocol.HeldSlotIsFrozen`. Where the slice would fault the code does not return, and neither does the model.
- Client.Client.Emit: like a client's other operations, stated for one whose geometry holds; what a client does over
  rings that overlap, or with slots of another size than it was told, is not modelled.
- Delivery.EmitsAreDelivered: an emit's writes are single bytes in the order of the code; the checks of an emit and
  a poll that do not touch the ring (budget, epoch) are those of `Client.Client.Emit` and `Client.Client.Poll`.
- ModuleServer.ModuleServer.RunModuleClient: runs for a finite schedule of turns, of any length. The bus interface is a
  class with a script of outcomes, in which a full ring refuses finitely often.
- ModuleCaller.ModuleCaller.AwaitReply: a schedule of arrivals that ends before the wait is decided gives
  `StillWaiting`, where the code would go on polling, and `Call` then does not cancel.
- SendableReplies.ValidateModuleConfig: the handler field is left out, since it is not validated.
- GovernanceStage.RunStage: the provider's answer is a parameter (whether it answered and what it wrote);
  the fields of a tool call other than name and arguments are one opaque value. Arguments of calls past the
  sixteenth are neither looked at nor freed, as in the code.
- GovernanceEndToEnd.Govern: the server-side bridge that calls the module over the bus is not in the
  repository; the model hands the encoded bytes straight to the handler.
- The response registry and pipeline runner, the environment toggle and the definition of the parsed response:
  not in the repository; the array of calls has room for at least sixteen and the stop reason for 32 bytes.
