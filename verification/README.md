# Streaming protocols: a verified model

The repository streams audio and video between machines. Four of its protocols have properties that no single
function shows, and this project models those four and proves them for every run.

* **Video over datagrams** (`Fragmentation`, `Reassembly`, `Placement`, `VideoSystem`, `VideoRuns`, with the programs
  `VideoPlayback` and `VideoNode`). A sender cuts each encoded frame into fragments of up to 1400 bytes; a receiver
  buffers them per frame number, tests for completeness only when a last-flagged fragment arrives, sorts, appends and
  erases. Peers are discovered while frames are being sent. `VideoSystem` composes discovery, sender, network and
  receivers; the network may lose, delay and reorder datagrams.
* **The TCP relay** (`Relay`, `RelayRuns`, with the program `RelayServer`). Every chunk read from one client is sent to
  all others under a mutex. The model has one step per lock, send, unlock, accept, receive, removal and close, so that
  other threads run between two sends of one broadcast. The same code is in `TCPMeasure/Audio/TCPLBSr.cpp` (lines
  30-60 and 126-147) and `TCPattempt/TCP_server/TCPserver2.cpp` (lines 42-80 and 190-211).
* **Timestamps and acknowledgements over TCP** (`AckProtocol`, with the programs `AckPrograms`). TCP may cut the bytes
  of either direction anywhere. `AckCapacity` gives the connection a capacity, so that a send can block.
* **The timestamped audio packet** (`TimestampPacket`, `Utf8`, `PythonInt`): printed by one program, truncated, decoded,
  split and parsed by another.

A protocol is a `State` datatype, an `Event` datatype and a relation `Next`; a run is a sequence of states linked by
events. Fields that record history (frames begun, fragments delivered, the broadcast log, bytes received) are named as
such beside each `State`, and the `HistoryOfRun` lemmas show that they are the history of the run's events. The classes
and loops of the source are classes and methods here. `VideoNode.Node` and `RelayServer.Server` carry the state of
their state machine in a ghost field that `Valid()` keeps reachable, so that every theorem about reachable states
applies after every call; `VideoPlayback.Playback` shows its fields as a `Receiver`.

## Results about the code

* A frame is carried whole exactly when its number of fragments fits the 32-bit field (`FragmentsCarryFrame`); any
  other frame arrives as the prefix that was sent.
* The video theorems hold for up to 2^32 frames, after which numbers are reused. Reused numbers can mix frames
  (`TwoSendersMix`), and a duplicated datagram can complete a frame with one piece in place of another
  (`DuplicateBreaksFrame`). What is shown then is right if and only if every payload, in index order, equals that of the
  frame's piece at its place, for duplicates and for fragments of several frames of one length (`BytesExactIff`,
  `ShownBytesIff`); so a duplicate does no harm where two pieces have equal bytes. The fragments themselves are the
  frame's own if and only if none is there twice and none belongs to another frame (`ExactIff`).
* Every datagram addressed to a peer is delivered, under way or lost (`EveryDatagramAccounted`), and every frame can be
  shown (`FrameCanBeShown`).
* A buffer that a duplicate has brought to the total too early is never shown: the count goes on past the total
  (`OverFullNeverShown`).
* A frame whose last-flagged fragment overtakes another one is never shown, and its fragments stay in the buffer for the
  rest of the run (`MissedForGood`).
* In the acknowledgement protocol a client that waits in recv never waits for nothing: data is under way, an
  acknowledgement is about to be sent, or a whole one is there (`NeverDeadlocks`). But both programs can block in send
  at once, and then nothing happens any more (`StuckIff`). If TCP hands over single bytes both ways, every run ends like
  this, whatever the capacity (`SingleByteRunsAreFinite`, `SingleByteRunsGetStuck`); how many packets it takes at the least is exact
  (`StuckWithinIff`). With whole reads and replies, 1024 and 8 bytes are room enough for ever (`RoomForOne`).
* The eight bytes of an acknowledgement come from eight consecutive places of the stream if and only if its read returned
  at least eight bytes (`ConsecutiveIff`). They are then a timestamp at a packet boundary, and elsewhere padding, or
  padding and part of a timestamp (`AckByOffset`). After a read of one to seven bytes the rest is what the previous acknowledgement had
  there, and after a first read that short, what the uninitialised buffer held (`AckBytewise`, `ShortFirstRead`). Such
  an acknowledgement can still be the right one: at a packet boundary it decodes to the packet's timestamp if and only
  if the rest of the timestamp was there already (`StampAckIff`), as happens when two packets follow each other shortly
  (`ShortReadMatches`). The client does not look at any of it.
* The packet round trip holds for negative timestamps too, and for audio of any length.
* The measuring loop of `UDPaudio/Measurements.py` goes on after a datagram if and only if the bytes before its first
  `|` decode to a numeral and the difference of its value to the receive time fits a double (`Measure`): the exceptions
  of the split, of int and of the division are not caught. A datagram of a one, 400 zeros and a `|` ends it
  (`HugeNumeralStops`).
* Were the relay to close a descriptor before erasing it, a broadcast could go to nobody or to a connection that is not
  registered (`CloseFirstMisdirects`, and `BroadcastReachesEnding` for a run in which it would).

## Model

| member | source | states |
|---|---|---|
| Fragmentation.OffsetInsideFrame | Online_AV/Online_AV.cpp:185-186 | Each fragment begins strictly inside the frame, for every frame size: the unsigned subtraction never underflows |
| Fragmentation.ConcatInOrder | Online_AV/Online_AV.cpp:177-187 | The payloads in index order, joined, are exactly the bytes sent: the frame, or its prefix if the count overflowed |
| Fragmentation.FragmentsCarryFrame | Online_AV/Online_AV.cpp:172-187 | The pieces joined in order equal the frame if and only if ceil(n/1400) fits 32 bits |
| Fragmentation.FragmentShape | Online_AV/Online_AV.cpp:172-187 | Exactly ceil(n/1400) pieces; all but the final one full and unflagged; the final one flagged and of 1 to 1400 bytes; none for an empty frame |
| Fragmentation.FragmentFields | Online_AV/Online_AV.cpp:178-187 | Each fragment carries its frame's number, its index, the count, the last flag on the final index alone, and an array of 1400 bytes that is zero behind the slice |
| Fragmentation.TotalIsWrapped | Online_AV/Online_AV.cpp:172-174 | The count is ceil(n/1400) modulo 2^32, for every frame shorter than 2^64 - 1399 bytes |
| Fragmentation.BuildFragment | Online_AV/Online_AV.cpp:178-187 | The loop body with its memcpy into a zeroed array yields piece i, whose counted bytes are the frame's slice at 1400 i |
| Reassembly.ConservationStep | Online_AV/Online_AV.cpp:250-278 | Every receive step, on any datagrams at all, keeps: each fragment received is held once under its own number or belongs to a reassembled frame |
| Reassembly.CountIsPresence | Online_AV/Online_AV.cpp:254-256 | Pigeonhole: for duplicate-free fragments of one sender, the count test holds if and only if every fragment is there |
| Reassembly.SortIsUnique | Online_AV/Online_AV.cpp:260-262 | Whatever the sort does with equal indices, a complete duplicate-free set comes out as the sender's sequence |
| Reassembly.CanReceive | Online_AV/Online_AV.cpp:250-281 | The loop body has an outcome for every fragment in every state |
| Reassembly.OfFrameOrder | Online_AV/Online_AV.cpp:251-251 | What arrived of a frame is taken from the history in order of arrival |
| Reassembly.ExactCompletion | Online_AV/Online_AV.cpp:250-281 | The frames completed by a history are those whose last-flagged fragment follows all their others, each once |
| Reassembly.ReceiverStep | Online_AV/Online_AV.cpp:250-281 | Receiving a new genuine fragment keeps: buffer equals backlog, frames shown equal frames completed, bytes shown equal bytes sent |
| Placement.SortAndAppendIsPlacement | Online_AV/Online_AV.cpp:258-266 | For every arrival order of a complete set, sort-and-append gives the same bytes as writing each fragment at index times 1400 |
| Placement.ExactIff | Online_AV/Online_AV.cpp:254-262 | Whatever was buffered, a set of the right count sorts to the fragments of a frame, field by field, if and only if nothing is in it twice and all of it is pieces of that frame; no assumption on who sent what or how often a number was used |
| Placement.ExactCompletionShows | Online_AV/Online_AV.cpp:254-270 | Then the receiver shows that frame and empties its buffer, in any state, after any history |
| Placement.PayloadsExactIff | Online_AV/Online_AV.cpp:259-266 | Payloads joined in index order are the bytes sent if and only if each is that of its piece, once all but the final one are full or the final one has its piece's size |
| Placement.BytesExactIff | Online_AV/Online_AV.cpp:254-266 | A set of the right count with a last-flagged fragment, duplicates and other frames of the same length included, sorts to the bytes sent for a frame if and only if every payload is that of the frame's piece at its place |
| Placement.ShownBytesIff | Online_AV/Online_AV.cpp:250-270 | The same for the bytes that a receive step shows, in any state |
| Placement.DuplicateBreaksFrame | Online_AV/Online_AV.cpp:251-266 | A run with one duplicated datagram shows the frame if and only if the piece missing equals the one that came twice |
| Placement.TwoSendersMix | Online_AV/Online_AV.cpp:251-266 | A run in which two frames under one number are mixed: it shows one of them if and only if they agree on the half it lacks |
| Placement.ShowsOnlyAtTotal | Online_AV/Online_AV.cpp:253-256 | For any fragments at all: a step shows a frame if and only if it is the arrival of a last-flagged fragment that brings the count to exactly its total |
| Placement.OverFullNeverShown | Online_AV/Online_AV.cpp:251-278 | Over any receptions: a number whose buffer holds as many fragments as their total without having been shown is never shown again, and the buffer keeps them |
| Placement.DuplicateBlocksFrame | Online_AV/Online_AV.cpp:251-256 | The run 0, 0, 1 of two shows nothing |
| VideoPlayback.Playback.OnFragment | Online_AV/Online_AV.cpp:250-281 | The loop body on the real buffer is one step of the receiver; the reused output vector holds the frame just shown |
| VideoPlayback.Playback.Run | Online_AV/Online_AV.cpp:240-282 | The receive loop over any results of recv: conservation always, and the receiver invariant for duplicate-free fragments of one sender |
| VideoPlayback.ArrivedOrder | Online_AV/Online_AV.cpp:240-250 | What arrived is every successful result of recv, in order, wherever failed calls stand between them |
| VideoPlayback.SortByIndex | Online_AV/Online_AV.cpp:260-262 | The result is a permutation in index order |
| VideoSystem.HelloMessages | Online_AV/Online_AV.cpp:320-323 | A message is a HELLO if and only if it is those five bytes, alone or followed by a NUL |
| VideoSystem.FirstSeenOrder | Online_AV/Online_AV.cpp:324-333 | The list built message by message has every source once, in order of first messages |
| VideoSystem.WireInPlace | Online_AV/Online_AV.cpp:153-200 | Over any number of frames up to 2^32, each fragment put out sits at the position its number and index say; so none goes out twice |
| VideoSystem.InvariantStep | Online_AV/Online_AV.cpp:138-338 | Every step of discovery, sender, network and receivers keeps the system invariant |
| VideoSystem.InvariantHolds | Online_AV/Online_AV.cpp:138-338 | Every state of every run satisfies the system invariant |
| VideoRuns.FrameIntegrity | Online_AV/Online_AV.cpp:172-199 | In every run each frame shown at a peer equals the frame encoded under its number, byte for byte if and only if its count fits |
| VideoRuns.ShownExactly | Online_AV/Online_AV.cpp:250-281 | In every run a frame is shown if and only if its last-flagged fragment arrived after all others, once; otherwise what arrived of it is in the buffer, in order |
| VideoRuns.MissedForGood | Online_AV/Online_AV.cpp:250-281 | Along a run: a frame not shown once its last-flagged fragment has arrived is never shown later, and all that the buffer holds of it stays there |
| VideoRuns.FragmentsConserved | Online_AV/Online_AV.cpp:250-278 | In every run, of any length, delivered fragments are those consumed plus those held, each under its own number |
| VideoRuns.EveryDatagramAccounted | Online_AV/Online_AV.cpp:189-197 | Along every run, what was delivered to a peer, what is under way and what was lost make up exactly what was addressed to it, as multisets |
| VideoRuns.CanDeliver | Online_AV/Online_AV.cpp:189-251 | Any datagram under way can be the next to arrive, whatever the state |
| VideoRuns.CanLose | Online_AV/Online_AV.cpp:189-197 | Or be lost |
| VideoRuns.FrameCanBeShown | Online_AV/Online_AV.cpp:172-281 | For every frame with fragments and every peer there is a run that discovers the peer, sends the frame, delivers it and shows its bytes |
| VideoRuns.ConsumedIffShown | Online_AV/Online_AV.cpp:250-278 | The fragments consumed are exactly the delivered ones of the frames shown, those held exactly the delivered ones of all other frames |
| VideoRuns.DiscoveryList | Online_AV/Online_AV.cpp:318-333 | In every run the peer list is duplicate-free, holds exactly the sources heard, in first-seen order |
| VideoRuns.OnlyGrows | Online_AV/Online_AV.cpp:324-333 | Along every run the peer list is append-only, a peer's joining point is fixed, and what was delivered and shown stays so |
| VideoRuns.SentIffAfterJoin | Online_AV/Online_AV.cpp:189-197 | A peer is addressed exactly the fragments put out after it joined: a suffix of the frame under way, all of later ones |
| VideoRuns.PartlySentNeverShown | Online_AV/Online_AV.cpp:189-197 | A frame of which a fragment went out before a peer joined is never shown there, under any loss and reordering |
| VideoRuns.LosslessShowsFullySent | Online_AV/Online_AV.cpp:254-256 | With everything delivered in order, a peer shows exactly the non-empty frames whose first fragment went out after it joined and whose last is out, in order |
| VideoRuns.FullySentContents | Online_AV/Online_AV.cpp:189-197 | The list in that statement: increasing, with exactly the non-empty frames below the cursor that begin at or after the joining position |
| VideoRuns.HistoryOfRun | Online_AV/Online_AV.cpp:153-338 | The HELLO sources, frames, output length and deliveries recorded in a state are those of the run's events |
| VideoNode.Node.OnMessage | Online_AV/Online_AV.cpp:320-335 | The discovery loop body, with its search of the list, is one discovery step, and appends the source of a HELLO if and only if it is not in the list |
| VideoNode.Node.SendOne | Online_AV/Online_AV.cpp:178-196 | One pass over the list under the lock makes one call of sendto per peer, in list order, each with this fragment, and is one send step |
| VideoNode.Node.SendFrame | Online_AV/Online_AV.cpp:172-199 | One frame, with any discovery messages handled between its fragments: a run of the state machine that puts out its fragments once, in order; every peer is sent exactly the fragments from the round on in which it was first heard, all if it was known |
| Relay.InvariantStep | TCPS/Server/TCPS.cpp:47-77 | Every step of every thread keeps the descriptor, mutex, log and delivery invariants |
| Relay.InvariantHolds | TCPS/Server/TCPS.cpp:42-211 | Every state of every interleaving satisfies them |
| Relay.SendReaches | TCPS/Server/TCPS.cpp:51-57 | A send inside a broadcast changes the listed connection under that descriptor and no other connection, listed or not |
| Relay.RemoveIsSlices | TCPS/Server/TCPS.cpp:73-73 | Erasing a descriptor from a duplicate-free list closes the gap: the slices before and behind it, in order |
| RelayRuns.ListedDescriptors | TCPS/Server/TCPS.cpp:190-211 | With descriptors reused, the list is duplicate-free and each descriptor in it is open for exactly one connection, whose thread is alive or about to start |
| RelayRuns.SendReachesOwner | TCPS/Server/TCPS.cpp:50-57 | No broadcast sends to a closed descriptor: each send reaches exactly one registered connection |
| RelayRuns.CloseBeforeErase | TCPS/Server/TCPS.cpp:70-77 | Closing before erasing would leave in the list a descriptor open for nobody, free for the next accept |
| RelayRuns.CloseFirstMisdirects | TCPS/Server/TCPS.cpp:47-77 | The steps that would follow: the pending send changes no connection, or after an accept of that descriptor goes to a connection not yet registered |
| RelayRuns.BroadcastReachesEnding | TCPS/Server/TCPS.cpp:42-77 | A run that reaches such a moment: one connection ends while another's broadcast is about to send to it |
| RelayRuns.OfferedExactly | TCPS/Server/TCPS.cpp:47-75 | What a connection was sent is the global log from its registration to its removal without its own chunks |
| RelayRuns.OfferedIff | TCPS/Server/TCPS.cpp:50-53 | A broadcast is sent to a connection if and only if it fell in its interval and came from another; sends follow the log |
| RelayRuns.WhatTheMutexBlocks | TCPS/Server/TCPS.cpp:47-77 | Listing, broadcasting and erasing wait for the mutex, exactly; accepting, starting a thread, ending and closing do not and can come between the sends of a broadcast |
| RelayRuns.ReceivedIff | TCPS/Server/TCPS.cpp:53-55 | What is received is exactly what was sent without failing |
| RelayRuns.ReceivedExactly | TCPS/Server/TCPS.cpp:47-57 | In every run a connection receives a broadcast if and only if the send of it to this connection did not fail; then it fell in its interval and came from another, and what is received follows the log |
| RelayRuns.ReceiveSizes | TCPS/Server/TCPS.cpp:47-47 | recv can return any chunk of 1 to 4096 bytes and no other |
| RelayRuns.TotalOrder | TCPS/Server/TCPS.cpp:50-57 | With sends failing or not, two connections agree on the order of all broadcasts both got, and got none of their own |
| RelayRuns.StreamFidelity | TCPS/Server/TCPS.cpp:43-59 | Without failures, what one connection got from another is a contiguous in-order piece of that one's byte stream |
| RelayRuns.HistoryOfRun | TCPS/Server/TCPS.cpp:47-50 | The log is the order in which the mutex was taken to broadcast; a stream is what recv returned |
| RelayRuns.JoinedAtRegister | TCPS/Server/TCPS.cpp:203-206 | A connection's interval of the log begins at its registration |
| RelayRuns.LeftAtRemove | TCPS/Server/TCPS.cpp:70-75 | It ends at its removal |
| RelayServer.Server.OnAccept | TCPS/Server/TCPS.cpp:192-210 | Accept, list and start: the descriptor is appended and its connection begins at the end of the log |
| RelayServer.Server.SendToNext | TCPS/Server/TCPS.cpp:51-56 | One iteration calls send exactly when the descriptor is not the sender's, and offers the data to the connection behind it alone |
| RelayServer.Server.BroadcastBuffer | TCPS/Server/TCPS.cpp:49-57 | One send per other listed descriptor, in list order; every other listed connection is offered the buffer once, the sender and all unlisted ones nothing; the new calls are, position by position, those to the list before and behind the sender's descriptor |
| RelayServer.Server.Serve | TCPS/Server/TCPS.cpp:47-59 | One round: newly accepted connections are in the list before the broadcast and are sent the buffer too; every listed connection but the sender is offered it once, the others nothing; the calls position by position as for the broadcast |
| RelayServer.Server.RemoveClient | TCPS/Server/TCPS.cpp:71-75 | Erasing keeps all other descriptors in order and is one removal step; the list is the slices before and behind the descriptor |
| RelayServer.Server.AcceptAll | TCPS/Server/TCPS.cpp:190-211 | The accept loop appends its descriptors to the list in order and disturbs no existing connection |
| RelayServer.Server.Leave | TCPS/Server/TCPS.cpp:61-77 | The end of a handler: unlisted, then closed, its interval ending at the log's length; the list is the slices before and behind its descriptor |
| RelayServer.Server.HandleClient | TCPS/Server/TCPS.cpp:42-80 | A whole handler, the accept loop listing others between its buffers: the log gains exactly its buffers, in order, it is sent none of them, and its descriptor ends closed and unlisted; the calls of send are those of each round to the list of that round, with that round's outcomes, every other listed connection gets one per round, and all others stay listed; per descriptor, one call per round from the round on in which it is listed, with the round's data and outcome |
| RelayServer.AllSendsTo | TCPS/Server/TCPS.cpp:47-57 | The calls of all rounds to one descriptor are one per round from the one on in which it is listed |
| RelayServer.ListedFromRound | TCPS/Server/TCPS.cpp:203-206 | That is the first round for those listed before, and the round before which it was accepted for all others |
| AckProtocol.StampRoundTrip | TCPMeasure/Basic/MeasureTCP.cpp:26-30 | The eight bytes of every int64 decode to it |
| AckProtocol.DecodesIff | TCPMeasure/Basic/MeasureTCP.cpp:26-30 | No other eight bytes do |
| AckProtocol.PacketLayout | TCPMeasure/Basic/ClientBasicTCPM.cpp:56-72 | A packet is 1024 bytes: the timestamp's 64-bit two's complement, least significant byte first, and 1016 times `A` |
| AckProtocol.AnyReadSize | TCPMeasure/Basic/MeasureTCP.cpp:20-20 | recv can return any number of bytes under way from 1 to 1024, for the client from 1 to 8, and always the front of them |
| AckProtocol.InvariantStep | TCPMeasure/Basic/MeasureTCP.cpp:19-35 | Every send, read, ack and reply, with any segmentation, keeps the stream, ack and counter invariants |
| AckProtocol.ByteConservation | TCPMeasure/Basic/ClientBasicTCPM.cpp:62-88 | In every run bytes sent equal bytes read plus bytes under way, as sequences, in both directions; eight ack bytes per read |
| AckProtocol.CountersExact | TCPMeasure/Basic/ClientBasicTCPM.cpp:60-77 | Each 32-bit counter is exact if and only if its count is below 2^31: for the client, fewer than 2^21 packets |
| AckProtocol.NeverDeadlocks | TCPMeasure/Basic/ClientBasicTCPM.cpp:71-85 | While the client waits, data is under way, or the server is about to ack, or at least eight ack bytes are there |
| AckProtocol.SomeStepIsPossible | TCPMeasure/Basic/ClientBasicTCPM.cpp:62-88 | Every reachable state has a next step, if a send never waits for room; `AckCapacity.StuckIff` is the statement without this assumption |
| AckCapacity.StuckIff | TCPMeasure/Basic/ClientBasicTCPM.cpp:71-81 | Over a connection of any capacity, nothing can happen if and only if both programs are in a send that does not fit |
| AckCapacity.AnyReadWithin | TCPMeasure/Basic/MeasureTCP.cpp:20-33 | Over a limited connection these are the bytes inside it, once the program's own send has returned |
| AckCapacity.StuckWithinIff | TCPMeasure/Basic/MeasureTCP.cpp:19-33 | For every capacity and number of packets: a stuck state can be reached within so many packets if and only if 8191 times that number is at least the ack capacity plus eight times the data capacity plus eight |
| AckCapacity.SingleByteRunsAreFinite | TCPMeasure/Basic/MeasureTCP.cpp:19-33 | The length of every run of one-byte reads and replies is bounded by the capacity |
| AckCapacity.SingleByteRunsGetStuck | TCPMeasure/Basic/MeasureTCP.cpp:19-33 | Every such run can be continued, by such steps, to a stuck state |
| AckCapacity.NoSingleByteStepIsStuck | TCPMeasure/Basic/MeasureTCP.cpp:19-33 | Where no such step is left, no step at all is: the runs that go on as long as they can all end stuck |
| AckCapacity.NoCapacityIsEnough | TCPMeasure/Basic/MeasureTCP.cpp:19-33 | Every finite capacity has a run that gets stuck |
| AckCapacity.UnderWay | TCPMeasure/Basic/MeasureTCP.cpp:19-33 | The bytes under way in each direction are bounded by the packets sent, the reads, the acks and the replies |
| AckCapacity.RoomForAll | TCPMeasure/Basic/ClientBasicTCPM.cpp:71-81 | No send blocks in a run of n packets over a connection with 1024 n and 8192 n bytes of room |
| AckCapacity.RoomForOne | TCPMeasure/Basic/ClientBasicTCPM.cpp:71-81 | With whole reads and replies no send ever blocks if there is room for one packet and one ack |
| AckProtocol.ServerStepsBounded | TCPMeasure/Basic/MeasureTCP.cpp:19-35 | The server alone can take only as many steps as the bytes under way allow before the client must go on |
| AckProtocol.AckBytewise | TCPMeasure/Basic/MeasureTCP.cpp:12-30 | Every byte of every ack: the stream byte if the read reached it, else the previous ack's byte, else the buffer's first contents |
| AckProtocol.AckSource | TCPMeasure/Basic/MeasureTCP.cpp:12-30 | Resolved over all reads: each ack byte is the stream byte at its source position or an uninitialised byte |
| AckProtocol.ConsecutiveIff | TCPMeasure/Basic/MeasureTCP.cpp:20-30 | Where an ack's bytes come from, not what they are: eight consecutive stream positions if and only if the read began at the first and returned at least eight bytes |
| AckProtocol.AckEqualsIff | TCPMeasure/Basic/MeasureTCP.cpp:12-30 | An ack equals any given eight bytes if and only if its read brought the front of them and the previous ack, or the uninitialised buffer, held the rest |
| AckProtocol.StampAckIff | TCPMeasure/Basic/MeasureTCP.cpp:12-30 | For reads of every size at a packet boundary, the ack decodes to the packet's timestamp if and only if the bytes of it that the read did not bring were there already |
| AckProtocol.ShortReadMatches | TCPMeasure/Basic/MeasureTCP.cpp:12-30 | A run in which a read of two bytes is acknowledged with the whole timestamp, the packet before it having a timestamp that differs in the low 16 bits only |
| AckProtocol.ShortFirstRead | TCPMeasure/Basic/MeasureTCP.cpp:12-30 | A run in which a first read of one byte is acknowledged with seven bytes nobody sent |
| AckProtocol.AckIsStreamAtOffset | TCPMeasure/Basic/MeasureTCP.cpp:25-30 | As far as a read reached, for reads of every size, its ack is the stream from the position where the read began |
| AckProtocol.AckByte | TCPMeasure/Basic/MeasureTCP.cpp:25-30 | The same in terms of packets: which byte of which packet |
| AckProtocol.AckByOffset | TCPMeasure/Basic/MeasureTCP.cpp:25-30 | For a read of at least eight bytes at each of the 1024 offsets: the timestamp, its tail and padding, padding, or padding and the head of the next timestamp; shorter reads are the subject of `AckBytewise` |
| AckProtocol.StopAndWait | TCPMeasure/Basic/ClientBasicTCPM.cpp:63-85 | With whole reads and replies exactly one of packet, pending ack, ack is under way while the client waits, none otherwise |
| AckProtocol.StopAndWaitStamps | TCPMeasure/Basic/MeasureTCP.cpp:25-33 | Then the n-th ack carries the n-th packet's timestamp |
| AckProtocol.StopAndWaitReplies | TCPMeasure/Basic/ClientBasicTCPM.cpp:80-81 | Then the client's n-th read returns the n-th ack |
| AckProtocol.HistoryOfRun | TCPMeasure/Basic/ClientBasicTCPM.cpp:62-88 | The packets, read sizes and reply sizes recorded in a state are those of the run's events |
| AckPrograms.HandleClient | TCPMeasure/Basic/MeasureTCP.cpp:12-42 | The server loop over its reused buffer: one ack per read, the buffer's first eight bytes at that time, and the wrapped total |
| AckPrograms.SendData | TCPMeasure/Basic/ClientBasicTCPM.cpp:55-77 | The client loop over its reused buffer sends the stream of timestamped packets and counts it |
| Utf8.WholeIsEncoding | UDPaudio/Measurements.py:24-24 | The decoder accepts a sequence only if it is the encoding of a scalar value, and yields that value |
| Utf8.DecodeText | UDPaudio/Measurements.py:24-24 | Encoded text decodes to itself whatever bytes follow it |
| Utf8.AsciiSurvives | UDPaudio/Measurements.py:24-24 | Ignoring errors neither drops nor invents an ASCII character |
| Utf8.DecodeAtAscii | UDPaudio/Measurements.py:24-25 | An ASCII byte cuts any data, valid or not: the parts before and after it are decoded separately |
| Utf8.DecodeAtEncoding | UDPaudio/Measurements.py:24-24 | The same at the encoding of every scalar value: whatever stands around it, it is decoded, and both sides separately |
| Utf8.NothingDecodedIff | UDPaudio/Measurements.py:24-24 | Data decode to the empty text if and only if no encoding occurs in them |
| Utf8.StandardExamples | UDPaudio/Measurements.py:24-24 | The encodings are those of the examples in section 7 of RFC 3629 |
| PythonInt.NumeralIsRead | UDPaudio/Measurements.py:28-28 | Every numeral (white space, sign, digits grouped by single underscores) is read as its value |
| PythonInt.ReadsIff | UDPaudio/Measurements.py:28-28 | A text is read if and only if it is a numeral |
| PythonInt.PlaceValue | UDPaudio/Measurements.py:28-28 | The value by place: the front counts ten times for each digit behind it, an underscore for nothing, leading zeros for nothing |
| PythonInt.UnderscoresDoNotCount | UDPaudio/Measurements.py:28-28 | The value is that of the digits alone |
| PythonInt.GroupedIff | UDPaudio/Measurements.py:28-28 | The digits of a numeral are those of the grammar: a digit, or such digits with a digit or an underscore and a digit behind them |
| PythonInt.AsciiSymbols | UDPaudio/Measurements.py:28-28 | Below 128, white space, signs, underscore and digits are these codes and no others |
| TimestampPacket.ParsePrinted | UDPaudio/Measurements.py:28-28 | Reading back the decimal text of an integer gives the integer |
| TimestampPacket.PrintedText | UDPaudio/UDPaudio.cpp:23-24 | A number prints as digits without a leading zero, behind a minus sign if it is negative and behind nothing if not |
| TimestampPacket.PacketLayout | UDPaudio/UDPaudio.cpp:23-30 | The packet is that text, the separator (code 124) and the audio bytes |
| TimestampPacket.PrintedLength | UDPaudio/UDPaudio.cpp:23-24 | A 64-bit timestamp prints in at most 20 characters |
| TimestampPacket.PacketRoundTrip | UDPaudio/UDPaudio.cpp:23-30 | Truncate, decode, split and parse give back the timestamp, for every int64 and all audio bytes |
| TimestampPacket.TimestampIff | UDPaudio/Measurements.py:22-28 | A datagram yields the number n if and only if its first 4096 bytes hold a separator and those before the first one decode to a numeral of value n |
| TimestampPacket.NoSeparatorIff | UDPaudio/Measurements.py:22-25 | The split fails if and only if the first 4096 bytes hold no separator |
| TimestampPacket.MeasuredIff | UDPaudio/Measurements.py:22-31 | A datagram is measured if and only if its bytes begin with a numeral and a separator and its value differs from the receive time by less than 2^1024 - 2^970 |
| TimestampPacket.LatenciesInOrder | UDPaudio/Measurements.py:30-31 | The list of latencies is in order of reception, whatever timeouts stand between them |
| TimestampPacket.OneLatency | UDPaudio/Measurements.py:28-31 | A datagram that parses leaves the difference of receive time and timestamp, divided by a million; a timeout leaves nothing |
| TimestampPacket.Measure | UDPaudio/Measurements.py:19-37 | The loop skips timeouts, stops at the first datagram that does not begin with a numeral and a separator or whose number is too far from the receive time for a float, and keeps the latencies up to there |
| TimestampPacket.HugeNumeralStops | UDPaudio/Measurements.py:28-34 | A power of ten from 10^342 to 10^4094 fits the receive buffer and parses, and ends the loop at every receive time in range |
| TimestampPacket.ClockInRange | UDPaudio/Measurements.py:29-30 | Every 64-bit nanosecond clock is in range of every 64-bit timestamp |
| TimestampPacket.PacketsAreMeasured | UDPaudio/Measurements.py:19-37 | Packets of the sender never stop the loop, at any receive time in range of every int64, and each latency is its receive time minus its own timestamp |

## Left out

- Devices and display: ALSA, PulseAudio and OpenCV are foreign calls. An encoded frame is any byte sequence, and a
  frame handed to the decoder is the observable event; the escape key, which stops the receive loop, is not modelled.
- The audio half of Online_AV.cpp: whole packets to the same peer list, with nothing to reassemble.
- Video sends of one fragment to the peers are one step, as the lock makes them for the list; a delivery to one peer
  before the send to the next commutes with it.
- Demultiplexing: the threads of Online_AV.cpp read one socket without a type tag. The receiver here gets whole video
  fragments and the discovery thread any messages at all.
- A fragment whose size field exceeds its array: the source would read past the array; `Payload` stops at its end.
- Video beyond 2^32 frames: the number is reduced modulo 2^32 in the model, and the run theorems are stated up to there;
  from there on `Placement.ExactIff` and `Placement.ShownBytesIff` say which buffered frames are exact.
- VideoPlayback.SortByIndex: stands for std::sort, of which the model uses only that the result is a sorted permutation.
- VideoNode.Node.SendFrame: runs one sender thread with discovery in between; deliveries and losses interleave in
  VideoSystem, not in the class.
- RelayServer.Server.HandleClient: runs one handler with the accept loop in between; several handlers, and steps
  between the sends of one broadcast, interleave in Relay.
- RelayServer.Server.OnAccept: accept, registration and thread start are three steps in Relay and one call here.
- Partial sends: send is whole or failed, because the source ignores the count it returns. A SIGPIPE that ends the
  server (TCPS.cpp does not ignore it) ends the run.
- AckProtocol.CountersExact: signed overflow is undefined in C++; the counters wrap in two's complement here.
- AckProtocol.SomeStepIsPossible: assumes that a send returns at once; AckCapacity.StuckIff drops this.
- AckProtocol.ConsecutiveIff: speaks of positions, because equal bytes can come from elsewhere; AckProtocol.AckEqualsIff
  speaks of the bytes.
- Placement.ExactIff: speaks of whole fragments; Placement.BytesExactIff speaks of the bytes shown, for frames of one
  length.
- AckCapacity: the server counts an acknowledgement when its send begins.
- A send of the relay that blocks holds the mutex and with it every broadcast, registration and removal; in Relay it is
  a step that is not taken, and no claim is made that it is taken some day.
- Errors in the acknowledgement protocol: a failed or ended recv or send leaves the loops; only error-free runs are
  modelled. Bandwidth and latency figures, clocks and sleeps are not.
- TimestampPacket.Measure: latencies are real numbers, without floating-point rounding, though the overflow of the
  conversion is modelled; Ctrl-C and socket errors other than the timeout are not.
- PythonInt: which code points beyond ASCII are digits or white space is a parameter, for all values of which the
  theorems hold.
- The capture loop of UDPaudio.cpp, and its receiver, which plays the datagram with the prefix still in it.
- Other programs of the repository: Online_Tracks, rtaudio_stream, IPcheck, OpenCVTest, the WebRTC client and server,
  the TCP clients, and TCPS/Measure.py, which reads packets of another size than its sender writes.
