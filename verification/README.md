# A verified model of the remote-desktop gateway

The repository is a virtual-desktop platform. Its gateway speaks the Guacamole protocol to `guacd` over
TCP and to browsers over HTTP long-polling or WebSockets; beside it a VPN container hands out addresses
and keeps a firewall, and a web API shows the tree of what was derived from a template. This project
models the parts of these programs that carry state and proves what they are meant to guarantee, or, where
they do not guarantee it, exactly when they do.

The Guacamole stack, bottom up:

- `Wire`: bytes, decimal lengths and the grammar of instructions, written without any scanner. A length counts
  bytes, as in the code; the protocol manual speaks of characters.
- `Framing`: one pass of the parse loop of `Stream.ReadSome` as a function, compared with the grammar.
- `MachineLengths`: the same loop with 64-bit lengths.
- `Instructions`: the printer with its cache, the parser, and how they agree with each other and the framer.
- `Buffering`: `ReadSome` on values: the window, compaction, reads, and the resume point.
- `Delivery`: whole sessions, independent of how the transport cuts the bytes, and the exact message bound.
- `Streams`: the `Stream` itself, in place over its 24576-byte array, refined to `Buffering`.
- `Handshakes`: the opening exchange with guacd, in both directions.
- `WebSocketPump`: the batching loop from guacd to a browser.
- `CountedLocks` and `ReadHandover`: the counted mutex, and any number of HTTP read requests taking turns.
- `TunnelRegistry` and `TunnelLifecycle`: the table of tunnels and its timeout sweep, first sequentially, then
  interleaved with requests.

Independent of it: `AddressPool` (WireGuard client addresses), `Firewall` (ACCEPT rules under default DROP),
`TemplateTree` (the derivation tree).

A transport is a list of events: bytes that arrive together, or a failure. A read takes as many of the
arrived bytes as fit into the window. Every theorem about a stream holds for every such list, hence for
every way of cutting the bytes into reads.

The theorems that say most:

- `Delivery.ChunkingIndependence`, `Delivery.InstructionsComeBack` and `Delivery.CapacityIsExact`: the sliding
  buffer is indistinguishable from a framer that sees the whole stream, and the limit under which this
  holds is exactly 8192 bytes.
- `Framing.FrameIffGrammar` and `Framing.RejectsAtTheEarliestByte`: the scanner decides the grammar.
- `ReadHandover.ReadersShareTheStream` and `ReadHandover.AtMostOneMore`: the HTTP handover loses nothing
  and yields after at most one more instruction.
- `Handshakes.HandshakeSucceedsIff` and `Handshakes.GuacdReadsTheConfiguration`: when the handshake succeeds, and
  what guacd has then been told.
- `TunnelLifecycle.TunnelsAreListedOrClosed`: no tunnel is forgotten, in any run with fresh UUIDs.
- `Firewall.OnlyOnceEntitledTrafficPasses` in any run at all, and `Firewall.TableIsTheRunningDesktops`: the firewall
  holds exactly the rules of the running desktops if and only if every stop and peer removal is clean.
- `TemplateTree.TreeIsExactlyTheDerived`: for lists with unique ids, the tree shows what was derived, each once.

## Where the code departs from what is promised

Where it applies, a line names the lemma with the failing case and the condition under which the promise holds.

- An instruction longer than 8192 bytes can make `ReadSome` spin for ever on an empty read window, although
  the buffer is three times as large: `Delivery.LongStalls`; up to 8192 bytes it never does: `Delivery.CapacityIsExact`.
- An empty length field (`.;`) is an instruction for the framer and an error for the parser:
  `Instructions.EmptyLengthIsRefused`. `Instructions.FramerParserAgree` gives the exact condition, a digit in every
  length field.
- A length beyond 64 bits wraps around and can be taken for a small one: `MachineLengths.HugeLengthReadsAsEmpty`;
  the exact condition on the window is in `MachineLengths.MachineAgreesIffHarmless`.
- The WebSocket pump can drop a complete instruction at the end of a connection: `WebSocketPump.TailCanBeDropped`
  with a part of the next one buffered, `WebSocketPump.InternalTailDrops` with an internal one behind it.
  `WebSocketPump.NothingLeftBehind` says for which byte streams no chunking does so.
- The comment on the tunnel timeout promises a tunnel at least one timeout after its last access. An
  access between the two phases of a sweep does not count: `TunnelLifecycle.AccessInTheGapDoesNotRescue`;
  `TunnelLifecycle.ClosedTooEarlyIff` says exactly when the promise is broken.
- The test for internal instructions looks at two bytes: `00.;` passes it, `Instructions.DoubleZeroIsMissed`;
  `Instructions.PrefixTellsInternalIff` is an equivalence.
- A client that reads up to the first internal instruction misses data if guacd sends one itself:
  `ReadHandover.InternalInstructionHidesTheRest` is such a run, and `ReadHandover.ClosedBodyDecodes` an equivalence.
- At start-up a new user can be given the stored address of a remote VPN: `AddressPool.TwoPeersOneAddress`,
  with the exact condition in `AddressPool.StartUpClashes`.
- Removing a VPN peer matches addresses as substrings and takes other peers' rules along:
  `Firewall.StrangersAreRemovedToo`, with the exact condition in `Firewall.PeerRemovalIsCleanIff`.
- A desktop leaves rules behind when it stops if its user's record is gone by then,
  `Firewall.UnreadableUserLeavesRules`, or a remote VPN's permission, `Firewall.RevokedAccessStays`; the exact
  condition on a start and its stop is in `Firewall.RemoveUndoesAddIff`.
- A cycle of parent links below a template ends in a recursion error: `TemplateTree.CycleNeverEnds`;
  `TemplateTree.EndsIffNoCycle` is an equivalence.

## Model

| member | source | states |
|---|---|---|
| Framing.PrefixStability | guac/stream.go:77-129 | a verdict reached on a prefix (frame or error) is the verdict on every extension of it, from any resume point |
| Framing.ResumeIsRescan | guac/stream.go:74-109 | scanning on from the saved `parseStart` after more bytes arrive gives what rescanning from the old position gives, for any bytes |
| Framing.FrameIffGrammar | guac/stream.go:82-117 | the scan returns a frame of n bytes if and only if the first n bytes are an instruction of the grammar, whatever follows |
| Framing.ScanTrace | guac/stream.go:82-117 | the elements the scan steps over are well-formed fields that spell out exactly the bytes it passed |
| Framing.PrefixFree | guac/stream.go:112-117 | no instruction is a proper prefix of another |
| Framing.ProperPrefixUndecided | guac/stream.go:94-98 | a part of an instruction never yields a frame or an error |
| Framing.RejectsAtTheEarliestByte | guac/stream.go:82-128 | the scan rejects exactly when no continuation could complete an instruction, and waits exactly when one could |
| Framing.RejectionMeans | guac/stream.go:104-128 | a stream is rejected for a byte in a length if and only if some fields are followed by digits and that byte, and for a terminator if and only if some field is followed by something else than a comma or a semicolon |
| Framing.FrameBoundsLengths | guac/stream.go:90-98 | while a scan works towards a frame of n bytes, on any part of it that has arrived, no accumulated length reaches n |
| Framing.FramesAreInstructions | guac/stream.go:65-156 | cutting a stream repeatedly yields instructions only, in order and without gaps, and stops only where no frame starts |
| Framing.FramesOfConcat | guac/stream.go:65-156 | concatenated instructions are cut into exactly those instructions, whatever their values contain |
| MachineLengths.MachineAgreesIffHarmless | guac/stream.go:71-128 | on every window from every position, the scan with 64-bit wrap-around lengths gives the verdict of the unbounded one if and only if every completed length field that ends outside the window is still not negative and outside it after wrapping |
| MachineLengths.MachineWordsSuffice | guac/stream.go:71-96 | as a consequence, wherever a call works towards a decided head, every scan of its window is the same in machine words |
| MachineLengths.DecidedLengthsFit | guac/stream.go:90-102 | if some continuation of a buffer is decided, no length field the scan has completed is too large for a machine word |
| MachineLengths.HugeLengthReadsAsEmpty | guac/stream.go:90-96 | a field whose length is a positive multiple of 2^64 is framed as an empty one, where an unbounded reader still waits |
| Instructions.Instruction.String | guac/instruction.go:24-36 | the printed form is the encoding of opcode and arguments, whether cached or not, and the cache stays valid |
| Instructions.Instruction.constructor | guac/instruction.go:16-21 | a new instruction holds the given opcode and arguments and no cache |
| Instructions.FindLengthEnd | guac/instruction.go:49-55 | the index of the first '.' at or after a position, or -1 when there is none |
| Instructions.AtoiMeans | guac/instruction.go:63 | a length is read as digits, or digits behind `+` or `-`, as far as the value fits 64 bits, and nothing else is |
| Instructions.NextElement | guac/instruction.go:48-80 | one turn of the parser: value and terminator position, or the exact error, including every index out of range |
| Instructions.CollectElements | guac/instruction.go:43-87 | the loop collects the elements up to the first ';' that ends an element |
| Instructions.Parse | guac/instruction.go:42-90 | the parser computes the specification that the lemmas below are about, on any bytes |
| Instructions.ParserIsLax | guac/instruction.go:77-85 | the parser looks at terminators only for the semicolon: `1.a?1.b` followed by `!` is an instruction with one argument |
| Instructions.ParserOnMalformedBytes | guac/instruction.go:42-90 | which malformed bytes give which error, and which index out of range, on literal inputs |
| Instructions.RoundTrip | guac/instruction.go:24-90 | printing and parsing gives back opcode and arguments for arbitrary bytes, ignores whatever is appended, and the framer cuts at the same place |
| Instructions.EncodeInjective | guac/instruction.go:24-36 | different instructions never print alike |
| Instructions.PrintedText | guac/instruction.go:24-36 | one instruction printed byte for byte, with literal numerals and separators |
| Instructions.UniqueFields | guac/instruction.go:42-90 | a byte string has at most one reading as an instruction followed by something |
| Instructions.FramerParserAgree | guac/instruction.go:42-90 | every frame cut from any stream is parsed without an index out of range; it is accepted if and only if every length field has a digit, with the framer's own element boundaries |
| Instructions.EmptyLengthIsRefused | guac/instruction.go:62-66 | `.;` is a frame of two bytes that the parser refuses |
| Instructions.DecodeEncodeAll | guac/instruction.go:93-101 | cutting and parsing a stream of encodings gives back exactly the instructions |
| Instructions.InternalPrefixIffEmptyOpcode | guac/tunnel.go:9-17 | an encoding starts with `0.` if and only if its opcode is empty |
| Instructions.EndMarkerUnambiguous | guac/server.go:201-208 | canonical encodings followed by the marker decode to those instructions and one internal one that ends at the last byte; stopping at the first internal one gives all of them if and only if none of them is internal |
| Instructions.PrefixTellsInternalIff | guac/tunnel.go:9-17 | on an arbitrary frame that parses, the two-byte test for `0.` agrees with an empty opcode if and only if an empty opcode has a length of one digit; it never takes another instruction for internal |
| Instructions.DoubleZeroIsMissed | guac/ws_server.go:157 | `00.;` is a frame with an empty opcode that the two-byte test lets through |
| Buffering.Conservation | guac/stream.go:65-156 | what a call returns, then the window, then the unread bytes are what window and unread bytes were before; the window stays inside the array; a returned frame is not empty |
| Buffering.InSyncScan | guac/stream.go:74-109 | in a buffer whose resume point is an element boundary, scanning may start at that point instead of at the front |
| Buffering.ResumeInSync | guac/stream.go:104-109 | every place where the scan saves its position is an element boundary of the window |
| Buffering.TurnFaithful | guac/stream.go:68-155 | every turn of the loop keeps the bytes ahead, the pending failure and the element boundary, or ends as the whole-stream framer prescribes |
| Buffering.ReadLoopFaithful | guac/stream.go:65-156 | a call returns the frame or error the whole-stream framer prescribes, or reports a read failure only when no verdict was possible, and keeps all undelivered bytes |
| Buffering.FailureKinds | guac/stream.go:135-149 | without a verdict, a call ends with a timeout if and only if the network timed out, with a closed connection if and only if the network failed otherwise, and with a server error if and only if the read ended without a network error |
| Delivery.NeverStalls | guac/stream.go:131-135 | if the head of the stream is decided within 8192 bytes, the read window is never empty |
| Delivery.ElementLengthsStayBelow | guac/stream.go:71-98 | while a call works towards an instruction of at most 8192 bytes, `elementLength` is below 8192 at every byte of every scan of the window, under any chunking |
| Delivery.OneCall | guac/stream.go:65-156 | one call answers what the whole-stream framer says about the bytes ahead, else the failure that ends them |
| Delivery.ChunkingIndependence | guac/stream.go:65-156 | the k-th call returns the same frame, or the session fails with the same error at the same call, for every way the transport splits the stream |
| Delivery.ExpectedFrames | guac/stream.go:65-156 | the prescribed session is the frames of the stream and then one outcome without a frame |
| Delivery.SessionEnds | guac/stream.go:65-156 | how a session ends under every chunking: after the frames of the stream, the last call reports a byte in a length, a wrong terminator, a timeout, a closed connection or a server error, each if and only if the rest of the bytes, or the connection behind them, is so |
| Delivery.InstructionsComeBack | guac/instruction.go:93-101 | any instructions of at most 8192 bytes each come back exactly, in order, under any chunking, and each frame parses to its instruction |
| Delivery.ShortIsAlwaysDelivered | guac/stream.go:131-154 | an instruction of at most 8192 bytes is delivered by the next call wherever in whatever session it comes next |
| Delivery.LongStalls | guac/stream.go:131-154 | behind two full messages any longer instruction leaves an empty read window and the call never returns |
| Delivery.CapacityIsExact | guac/stream.go:11-14 | an instruction is delivered in every session and under every chunking if and only if it has at most 8192 bytes |
| Streams.Stream.constructor | guac/stream.go:33-41 | a new stream has an empty window at the front of a 24576-byte array |
| Streams.Stream.Available | guac/stream.go:52-54 | true exactly when the window holds bytes |
| Streams.Stream.Flush | guac/stream.go:57-61 | the window moves to the front of the array with its contents and resume point unchanged, overlapping or not |
| Streams.Stream.ParseBuffer | guac/stream.go:77-129 | the loop over the array gives the verdict of the scan of the window and leaves `parseStart` where that says |
| Streams.Stream.Refill | guac/stream.go:131-154 | compaction and one read do what the model on values says, and the bytes before the window stay untouched unless it compacts |
| Streams.Stream.Extend | guac/stream.go:135-154 | one read puts what arrives behind the window and extends the window over it; nothing before the window changes, and a failure brings no bytes |
| Streams.Stream.ReadInto | guac/stream.go:135-154 | the read ends the call with the classified failure, or lets the loop go round with the extended window |
| Streams.Stream.TakeFrame | guac/stream.go:112-117 | the frame is the slice at the front of the window, and the window starts behind it |
| Streams.Stream.ReadSome | guac/stream.go:65-156 | the in-place call has exactly the outcome and final state of the model on values; the returned frame is the slice right before the window; and slices handed out earlier keep their bytes unless the call has to compact |
| Handshakes.AssertOpcode | guac/stream.go:254-270 | one instruction is read; it is accepted exactly when its opcode is the expected one, with the source's errors otherwise |
| Handshakes.BuildArgs | guac/stream.go:183-198 | one value per requested name, in order: the name's parameter or the empty string |
| Handshakes.SendAnswer | guac/stream.go:200-233 | the bytes written are the encodings of size, audio, video, image and connect |
| Handshakes.Handshake | guac/stream.go:164-251 | error, buffer, bytes written and connection ID are those of the specification, for every behaviour of guacd |
| Handshakes.OneInstruction | guac/instruction.go:93-101 | reading where an encoding of at most 8192 bytes comes next returns that instruction and leaves exactly the bytes behind it |
| Handshakes.OneFrame | guac/stream.go:65-156 | reading where any frame of at most 8192 bytes comes next returns that frame and leaves exactly the bytes behind it |
| Handshakes.OpcodeBytes | guac/stream.go:172-236 | the eight opcodes of the handshake, byte for byte |
| Handshakes.ReplyKinds | guac/stream.go:254-270 | a reply is accepted, or refused for the empty opcode, for another opcode or for lack of an instruction, each if and only if the frame read is so |
| Handshakes.HandshakeSucceeds | guac/stream.go:164-251 | if guacd's bytes begin with any frame that says args and any that says ready, under any chunking, the six instructions are sent and every byte behind ready is still to be read; the ID is the first argument of ready, and without one the error says so |
| Handshakes.HandshakeSucceedsIff | guac/stream.go:164-251 | when the heads of guacd's stream fit, the handshake succeeds if and only if the bytes begin so with an argument to ready, and misses the connection ID if and only if they begin so without one |
| Handshakes.HandshakeMeans | guac/stream.go:164-251 | conversely success means that guacd began with frames that say args and ready, and nothing else was consumed |
| Handshakes.GuacdReadsTheConfiguration | guac/stream.go:164-251 | after a success, cutting and parsing the bytes written gives guacd six instructions in order whose numbers read back as the configured ones, with the configured formats, and one value for each name of the args that it said: that name's parameter or the empty string |
| Handshakes.SilentBeforeArgs | guac/stream.go:171-181 | nothing but select is sent before args has been received |
| Handshakes.FirstWords | guac/stream.go:164-175 | on an open connection select always goes out first, with the connection ID or else the protocol, and then either nothing or all five further instructions |
| WebSocketPump.GuacdToWs | guac/ws_server.go:147-179 | the loop sends the messages, keeps the pending bytes and ends for the reason that the pump on values has |
| WebSocketPump.PumpConserves | guac/ws_server.go:147-179 | the instructions of all messages, then the pending ones, are exactly the instructions read without the internal ones; messages are cut at instruction boundaries |
| WebSocketPump.PumpBounds | guac/ws_server.go:167-177 | what is pending is below 8192 bytes at every loop head, and each message, also one that the socket refuses, was so before its last instruction |
| WebSocketPump.MessagesFitTheWriteBuffer | guac/ws_server.go:148 | with instructions of at most 8192 bytes no message reaches 16384 bytes |
| WebSocketPump.PumpReadsTheSession | guac/ws_server.go:150-155 | the pump reads exactly the session that `ReadSome` offers, up to the call it stops at |
| WebSocketPump.PumpForwardsTheStream | guac/ws_server.go:147-179 | however guacd's bytes are cut, messages and pending bytes hold the frames of the stream without the internal ones |
| WebSocketPump.NothingLeftBehind | guac/ws_server.go:147-179 | for any bytes from guacd, nothing is pending at the end under any chunking if and only if there is nothing to forward, or the bytes end with a frame that is forwarded, or the last forwarded frame fills a message |
| WebSocketPump.PendingAtTheEnd | guac/ws_server.go:167-177 | the same for a pump in the middle of a session: what is pending stays if nothing more is to be forwarded, and is gone if the last instruction leaves at once |
| WebSocketPump.TailCanBeDropped | guac/ws_server.go:150-168 | with a part of a further instruction buffered, a complete instruction is dropped at the end |
| WebSocketPump.InternalTailDrops | guac/ws_server.go:157-160 | with an internal instruction behind it and no partial one, a complete instruction is dropped as well |
| CountedLocks.StepKeepsInv | guac/counted_lock.go:14-24 | every atomic step of every thread keeps: one holder at most, counter equal to announced threads modulo 2^32 |
| CountedLocks.MutualExclusionAndCount | guac/counted_lock.go:8-24 | over all interleavings of any number of threads, at most one is in the mutex, and the counter is the waiting threads plus one for a holder that has not decremented |
| CountedLocks.HasQueuedIsExact | guac/counted_lock.go:26-29 | for a holder that has not begun to unlock, `HasQueued` is true if and only if another thread has announced itself, below 2^31 threads |
| CountedLocks.HasQueuedIff | guac/counted_lock.go:26-29 | with any number of threads, `HasQueued` is true if and only if the number of announced threads modulo 2^32 is at least 2 and below 2^31 |
| ReadHandover.RunKeepsInv | guac/server.go:121-209 | every step of every request, arrival of bytes, failure and foreign close keeps the lock linked to the requests and the stream conserved |
| ReadHandover.ReadersShareTheStream | guac/server.go:121-209 | the bodies in lock-acquisition order, without end markers, then the instruction in flight, are exactly the first instructions of guacd's stream: nothing lost, duplicated or reordered |
| ReadHandover.EveryBodyIsClosed | guac/server.go:147-208 | a finished response is whole instructions and then at most one end marker; a successful one has at least one instruction and its marker |
| ReadHandover.FailedBodyIsMarkedIff | guac/server.go:147-162 | in every run, after a read that returns no instruction the response ends with the marker if and only if the bytes ahead were undecided and the network failed behind them other than by a timeout; every other failed response has none, and the tunnel is closed in any case |
| ReadHandover.ClosedBodyDecodes | guac/server.go:201-208 | in every run, a body closed by an end marker is cut into exactly the instructions of that response and the marker, which ends at the last byte; stopping at the first internal frame gives all of them if and only if guacd sent no internal instruction into it |
| ReadHandover.InternalInstructionHidesTheRest | guac/server.go:167-209 | a complete run whose body starts with an internal instruction of guacd: a client that stops there gets none of the body, although another instruction follows |
| ReadHandover.OneReaderAtATime | guac/tunnel.go:73-87 | at most one request at a time uses the stream |
| ReadHandover.AtMostOneMore | guac/server.go:171-199 | once another reader is counted, the holder delivers at most one more instruction in any continuation, and none if it is past its write |
| ReadHandover.SomebodyCanMove | guac/server.go:121-209 | no deadlock: as long as some request is not done and the next read would not stall, a waiting, holding or releasing request has a step |
| ReadHandover.HolderCanMove | guac/server.go:167-209 | the request that has the lock can always take its next step, unless that is a read that stalls |
| ReadHandover.HolderMakesProgress | guac/server.go:195-209 | while somebody waits, that step brings it strictly closer to releasing the lock |
| TunnelRegistry.TunnelMap.Put | guac/tunnel_map.go:136-142 | a fresh open entry with the current time is registered and no other entry changes |
| TunnelRegistry.TunnelMap.Get | guac/tunnel_map.go:122-134 | a lookup finds the entry if there is one and counts as an access to it alone |
| TunnelRegistry.TunnelMap.Remove | guac/tunnel_map.go:144-154 | exactly the named entry goes, and is returned unchanged |
| TunnelRegistry.TunnelMap.Expired | guac/tunnel_map.go:98-104 | the scan collects exactly the UUIDs not accessed since the time line |
| TunnelRegistry.TunnelMap.TunnelTimeoutTaskRun | guac/tunnel_map.go:89-120 | an undisturbed sweep removes exactly the entries idle for more than the timeout, closes exactly those tunnels and touches no other |
| TunnelRegistry.SurvivesUntil | guac/tunnel_map.go:79-120 | a tunnel nobody accesses is there after k sweeps if and only if the last of them came at most one timeout after its last access |
| TunnelRegistry.TimeoutWindow | guac/tunnel_map.go:43-49 | with sweeps exactly T apart, a tunnel last accessed at a is removed by one particular sweep, at a time t with a+T < t <= a+2T |
| TunnelLifecycle.StepKeepsInv | guac/tunnel_map.go:89-154 | every step of requests, accesses, closes and the two phases of a sweep keeps the registry invariant |
| TunnelLifecycle.TunnelsAreListedOrClosed | guac/server.go:33-43 | in every run with fresh UUIDs a listed tunnel has never been closed, and at rest every tunnel ever registered is either listed or closed |
| TunnelLifecycle.RemovedNeverReturns | guac/server.go:33-43 | a tunnel that has left the map never comes back |
| TunnelLifecycle.SweepRemovesWhatItScanned | guac/tunnel_map.go:98-118 | the delete phase removes exactly the tunnels its scan collected, never another under the same UUID; each had been idle for more than the timeout at the scan, and is closed |
| TunnelLifecycle.SweepLeavesOnlyRecent | guac/tunnel_map.go:89-120 | a sweep is complete, whatever happens during it: every tunnel it leaves in the map has been accessed since one timeout before it started |
| TunnelLifecycle.LastAccessIsLast | guac/tunnel_map.go:25-35 | in every run the access time of a tunnel is the time of its last registration or lookup |
| TunnelLifecycle.ClosedTooEarlyIff | guac/tunnel_map.go:98-118 | every collected tunnel is closed; if the delete phase follows within one timeout, it had been accessed within the timeout if and only if it was accessed after the scan looked at it |
| TunnelLifecycle.AccessInTheGapDoesNotRescue | guac/tunnel_map.go:104-106 | an access between scan and delete does not keep the tunnel: a run that closes one at the moment of its last access |
| AddressPool.DottedInjective | docker/vpn/src/wgtools.py:386-393 | different hosts have different text forms, so comparing texts compares hosts |
| AddressPool.DottedMeans | docker/vpn/src/wgtools.py:387-393 | the text of an address is its four bytes in decimal, highest first, separated by dots |
| AddressPool.Wg.constructor | docker/vpn/src/wgtools.py:120-126 | a new pool has reserved exactly the server's address, the second of the network |
| AddressPool.Wg.Extend | docker/vpn/src/wgtools.py:176-180 | stored addresses are added to the reserved list in order |
| AddressPool.Wg.GenClientIp | docker/vpn/src/wgtools.py:386-398 | the lowest unreserved host is returned and reserved; with none left the list is unchanged |
| AddressPool.NextIsLowest | docker/vpn/src/wgtools.py:387-393 | a call fails exactly when no host is free; otherwise it takes the least of the free hosts and frees no other |
| AddressPool.HandedOutInOrder | docker/vpn/src/wgtools.py:386-398 | over any run of calls and extensions the generated addresses strictly increase, are hosts of the network, and were not reserved |
| AddressPool.AddressesAreUnique | docker/vpn/src/wgtools.py:386-398 | after any history no generated address is the server's, one reserved before, or one generated twice, also as text |
| AddressPool.ExactlyTheLowest | docker/vpn/src/wgtools.py:386-398 | n calls hand out exactly the n lowest free hosts |
| AddressPool.ExactlyAsManyAsFree | docker/vpn/src/wgtools.py:386-398 | exactly as many further calls succeed as there are unreserved hosts |
| AddressPool.HandedAreInside | docker/vpn/src/wgtools.py:386-398 | in any run, no network or broadcast address is handed out, except in a network of two addresses |
| AddressPool.FreshPoolGivesAll | docker/vpn/src/wgtools.py:120-126 | from a fresh pool exactly size - 3 calls succeed, and exactly the addresses strictly between the ends of the network but its second one are handed out; of two addresses the first |
| AddressPool.StartUpClashes | docker/vpn/src/wgtools.py:160-244 | start-up keeps new users apart from users and new remote VPNs from everybody; a new user gets a stored remote VPN address if and only if one is among the lowest free hosts, as many as there are new users |
| AddressPool.StartUpCompletesIff | docker/vpn/src/wgtools.py:176-244 | start-up gets to the remote VPNs if and only if there is a free host for each new user, and completes if and only if one is then left for each new remote VPN |
| AddressPool.TwoPeersOneAddress | docker/vpn/src/wgtools.py:176-216 | a start-up in which a user and a remote VPN share an address |
| Firewall.UserIpTools.GetExtraAlloweds | docker/vpn/src/simple_iptools.py:291-326 | in table order, exactly the remote VPNs of which at least one scope is the empty list or names the user's value of that field |
| Firewall.EachScopeAlone | docker/vpn/src/simple_iptools.py:299-325 | each scope alone decides by its own field: roles by role, categories by category, groups by group, users by id; with none checked nobody is let in |
| Firewall.UserIpTools.ApplyRemoteVpn | docker/vpn/src/simple_iptools.py:162-222 | both directions are appended for every address and network of every allowed remote VPN |
| Firewall.UserIpTools.RemoveRemoteVpn | docker/vpn/src/simple_iptools.py:224-289 | the same pairs are deleted one by one, the second of a pair only if the first was there |
| Firewall.UserIpTools.DesktopAdd | docker/vpn/src/simple_iptools.py:34-79 | the table gains exactly both directions between the desktop and each contact of its user; nothing if the user cannot be read |
| Firewall.UserIpTools.DesktopRemove | docker/vpn/src/simple_iptools.py:81-144 | the table loses one copy of each of those rules that is there; a user that cannot be read changes nothing |
| Firewall.UserIpTools.RemoveMatchingRules | docker/vpn/src/simple_iptools.py:328-374 | for some listing of the chain, the table is what deleting pair by pair for every rule and address that match leaves |
| Firewall.RemoveUndoesAdd | docker/vpn/src/simple_iptools.py:34-144 | adding and removing a desktop restores the rule multiset, whatever else it holds |
| Firewall.RulesAsReported | docker/vpn/src/simple_iptools.py:50-77 | the rules of one desktop, a single host and a network, in the text that iptables reports |
| Firewall.RemoveUndoesAddIff | docker/vpn/src/simple_iptools.py:34-144 | stopping a desktop undoes starting it in every table if and only if its user can be read both times or neither time, and in the first case its contacts are the same; this covers both except branches |
| Firewall.UnreadableUserLeavesRules | docker/vpn/src/simple_iptools.py:82-87 | a desktop whose user can be read at the start and not at the stop leaves all its rules |
| Firewall.StopIsDifference | docker/vpn/src/simple_iptools.py:81-144 | on a symmetric table a stop takes out exactly what a start would grant now, as far as it is there, although each pair's second deletion depends on the first |
| Firewall.RevokedAccessStays | docker/vpn/src/simple_iptools.py:224-289 | a remote VPN whose permission is withdrawn while a desktop runs keeps its rules after the desktop has stopped |
| Firewall.StepKeepsAccountIff | docker/vpn/src/simple_iptools.py:34-374 | from a table that holds exactly the rules of the running desktops, a stop with any user and remote VPNs, readable or not, keeps it so if and only if it finds each rule as often as the start granted it, or more often but nobody else has it; a peer removal if and only if no rule touches the peer |
| Firewall.TableIsTheRunningDesktops | docker/vpn/src/simple_iptools.py:34-374 | in every interleaving of starts, stops and peer removals the table holds exactly the rules of the running desktops all the time if and only if every step is clean in that sense |
| Firewall.FaithfulStop | docker/vpn/src/simple_iptools.py:81-144 | a stop that reads the user like its start and finds the same contacts is always clean, and covers |
| Firewall.NeverMoreThanTheRunning | docker/vpn/src/simple_iptools.py:34-374 | in every such interleaving the table never holds a rule more often than the running desktops account for if and only if every stop covers: what it leaves of a rule belongs to the others |
| Firewall.NeverMoreThanTheStarted | docker/vpn/src/simple_iptools.py:34-374 | in any run at all, whatever its stops find, the table never holds a rule more often than the desktops started so far account for |
| Firewall.OnlyOnceEntitledTrafficPasses | docker/vpn/src/simple_iptools.py:34-374 | in any run at all from an empty chain, an accepted pair is a desktop started in the run and an address whose user's scopes entitled it then |
| Firewall.OnlyEntitledTrafficPasses | docker/vpn/src/simple_iptools.py:34-374 | from an empty chain, if every stop covers then only pairs of a running desktop and its user's address, or an address or network of a remote VPN whose scopes admitted that user, are accepted; and exactly those if every step is clean |
| Firewall.AlwaysSymmetric | docker/vpn/src/simple_iptools.py:34-374 | over every run of additions, removals and peer removals there are as many rules from s to d as from d to s, so traffic is forwarded both ways or not at all |
| Firewall.PurgeIsExact | docker/vpn/src/simple_iptools.py:328-374 | removing a peer takes every copy of exactly the rules that match in one direction or the other, in whatever order the chain is listed |
| Firewall.ContainsMeans | docker/vpn/src/simple_iptools.py:340 | Python's `in` on two strings: the one is the other with something before and behind |
| Firewall.MatchesIsTouches | docker/vpn/src/simple_iptools.py:338-342 | a rule matches in one direction or the other exactly when one of its ends occurs inside one of the peer's addresses |
| Firewall.PeerRemovalIsCleanIff | docker/vpn/src/simple_iptools.py:328-374 | no rule about the peer is left; and only such rules go if and only if no other rule has an end that is a substring of a peer address |
| Firewall.StrangersAreRemovedToo | docker/vpn/src/simple_iptools.py:338-342 | removing 10.0.0.12 removes the rules of 10.0.0.1 |
| TemplateTree.GroupByParent | api/src/api/libv2/api_admin.py:646-650 | the dictionary holds for every id exactly the entries that name it as parent, in list order |
| TemplateTree.ChildrenKeepOrder | api/src/api/libv2/api_admin.py:649-650 | the entries below a parent stand in the order of the list |
| TemplateTree.ChildrenCount | api/src/api/libv2/api_admin.py:649-650 | each entry stands below its own parent as often as in the list, and below no other |
| TemplateTree.Adopt | api/src/api/libv2/api_admin.py:706-712 | a node gets its children and is unselectable exactly when its entry is or one of the children is |
| TemplateTree.TemplateTreeRecursion | api/src/api/libv2/api_admin.py:703-713 | the recursion over the dictionary builds the unfolding of the flat list, or runs out of stack exactly when that does |
| TemplateTree.GetTemplateTreeList | api/src/api/libv2/api_admin.py:646-651 | grouping and recursion together unfold the derivation list from the template |
| TemplateTree.EndsIffChainsAreShort | api/src/api/libv2/api_admin.py:703-713 | the recursion ends if and only if no chain of parent links from the root is longer than the stack |
| TemplateTree.EndsIffNoCycle | api/src/api/libv2/api_admin.py:703-713 | for any list, with a stack deeper than the list is long, the recursion ends if and only if no cycle of parent links can be reached from the root |
| TemplateTree.CycleNeverEnds | api/src/api/libv2/api_admin.py:703-713 | a cycle that the root reaches overflows every stack |
| TemplateTree.TreeIsExactlyTheDerived | api/src/api/libv2/api_admin.py:703-713 | with unique ids, whenever the recursion ends the tree holds every entry connected to the root through listed parents exactly once, and no other; with a stack deeper than the list it ends exactly when no cycle can be reached |
| TemplateTree.EveryNodeInPlace | api/src/api/libv2/api_admin.py:703-713 | every node stands under its parent, siblings in list order, for any list whose recursion ends |
| TemplateTree.FlagsPropagate | api/src/api/libv2/api_admin.py:709-712 | at every depth a node is unselectable exactly when it or some node in its subtree was listed so |

## Left out

- Real sockets, deadlines, TLS, HTTP and WebSocket upgrades, logging and the tables of error codes: the transport is a list of events and errors are constructors.
- Reads that return bytes together with an error: the transport gives one or the other.
- Streams.Stream.ReadSome: the call that spins on an empty read window is modelled as the outcome `Stalled`; the endless loop itself is not.
- Streams.Stream.ReadSome: lengths are unbounded in the loop over the array; `MachineLengths` says when 64-bit lengths give the same, and a length that has turned negative is only named (`Astray`).
- Buffering.ReadLoopFaithful: after a wrong terminator the resume point need not be an element boundary; the source gives the stream up there, and so do the statements.
- Delivery.InstructionsComeBack: parsing is stated on each frame; a stream as a whole may be longer than an `int` can index.
- ReadHandover.ReadersShareTheStream: the methods of `doRead`, `writeSome` and `CountedLock` are steps of a transition system on values, not methods on shared objects; scheduling is any interleaving of those steps.
- ReadHandover.EveryBodyIsClosed: response writes succeed; the branch for a failing write, and the second deregistration and close of an already closed tunnel, are not modelled.
- ReadHandover.AtMostOneMore: assumes fewer than 2^31 threads at the lock, where the 32-bit counter is still exact.
- A read on a connection that is already closed fails with an untyped error on which `doRead` panics; the model ends that request without a marker, with the deferred unlock performed and the tunnel closed.
- TunnelRegistry.TunnelMap.TunnelTimeoutTaskRun: clock values are parameters, and the ticker is exact in `TimeoutWindow`.
- TunnelRegistry.TunnelMap.Get: a nil entry of the map does not occur, because `Put` never stores one.
- The rest of `doWrite`, whose error is overwritten by the result of closing.
- `wsToGuacd`: copies each WebSocket message to guacd unless it starts with `0.`, and stops at the first failing read or write. It keeps no state, and the statements here hold for whatever guacd answers.
- ReadHandover.SomebodyCanMove: a read that stalls on an empty window has no step; `Delivery.NeverStalls` says when reads do not stall, and that another request then waits for ever is not stated.
- Handshakes.GuacdReadsTheConfiguration: the configured numbers are 64-bit integers, as in the source, and the transcript is short enough for an `int` to index.
- WebSocketPump.NothingLeftBehind: heads of the stream fit a message and the socket takes all messages; beyond that the read loop can spin, `Delivery.LongStalls`.
- Handshakes.HandshakeSucceeds: writes fail only on a closed connection.
- AddressPool.Wg.constructor: a network has at least two addresses; the source raises an index error for a single-address network, and IPv6 networks are not modelled.
- AddressPool.StartUpClashes: key generation, interface set-up and the reset of stored certificates are not modelled.
- Firewall.UserIpTools.DesktopAdd: appends succeed, rules are plain ACCEPT rules of the FORWARD chain, and of the canonical forms of iptables only the "/32" suffix of a single host is modelled.
- Firewall.OnlyEntitledTrafficPasses: decides by the pair of addresses in a rule, not by whether a packet's host lies inside a network.
- Firewall.UserIpTools.DesktopRemove: for an unknown user the source fails while building its log message; the model only says that the table does not change.
- TemplateTree.TemplateTreeRecursion: the size of the Python stack is a parameter, and the dictionary is a map that the method reads.
- TemplateTree.GetTemplateTreeList: the database query, the filter for managers, the root record and the display fields that the recursion only copies are not part of this model.
- Authentication, statistics, the database change feeds, the command-line tools behind the rules, and the front end.
