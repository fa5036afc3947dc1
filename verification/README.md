# A verified model of the network stack

The repository is a four-layer network stack for a virtual network of up to six hosts: a link layer
over an unreliable datagram service, a network layer with distance-vector routing, fragmentation
and reassembly, a transport layer with a selective-repeat sliding window, and a file transfer on
top. This project models the protocols of those layers in Dafny 4.11 and proves what they are for:
that an application reads a prefix of what the other one sent, that packets do not go round in
loops, that what was cut into fragments comes together again, that damage is noticed, that files
arrive. Where the C code does not do what it is for, the project has a concrete input that shows
it, and the exact condition under which the code does.

`dafny verify dfyconfig.toml` checks everything.

## How it is built

- Every algorithm that works by changing things is a class or a method with loops
  (`ExpectedAcks`, `SegmentBuffers`, `SendPoint`, `RecvPoint`, `ServicePoint`, `Router`,
  `FragPack`, `PackList`, `Compute`, `LinkBuffers`, `NoisyNetwork`, `BuildSendDatagram`, `Outbox`,
  `Inbox`, `WaitList`), proved against a function of the old state.
- Protocols are state machines over those same functions: the steps of sender, receiver and network
  in `SlidingWindow`, of the two ends of a connection attempt in `Handshake`, of all hosts in
  `RoutingProtocol`, of all threads in `SendQueue`. Theorems are about every run.
- A timeout is a step that may happen at any time. The network keeps every packet ever sent, so a
  packet may be lost (never delivered), duplicated and reordered. Corruption is handled once, in
  `Link`: a damaged packet that fits the receive buffer never passes the checksum, so the machines above
  see it as lost.
- The sliding window runs in two arithmetics: the code's, and arithmetic modulo 2^32 - 1, in which a
  stream may be of any length. In the first any packet ever sent may arrive at any time. In the second
  numbers come round, and there is a proviso (`FreshData`, `FreshAck`): no copy of a segment taken
  before arrives while its number is one the receiver would now take as new, and no acknowledgment
  of a released segment while its number is that of a listed entry. All other old packets may arrive.
  `StaleCopyBreaks` and `StaleAckBreaks` show that neither half can be dropped, and
  `FreshBelowATurn` that the proviso holds of itself for streams of up to a turn less a window.

| file | about |
|---|---|
| `SequenceSpace`, `AckList`, `SegmentList`, `Sender`, `Receiver` | the transport layer's parts |
| `SlidingWindow`, `SlidingWindowSafety`, `WrappingRuns`, `SlidingWindowProgress`, `CodeLimits` | one direction of a connection, intended and as coded |
| `Handshake`, `Connection` | opening a connection, and the whole of it |
| `Routing`, `RoutingProtocol` | one routing table, and all of them |
| `Fragmentation`, `Reassembly`, `ReassemblyInOrder`, `ReassemblyRepeats`, `OrderedReassembly` | cutting and joining, as coded and as documented |
| `Bytes`, `Checksum`, `Encoding`, `Garbler`, `Link`, `Packets`, `PacketDamage` | what is on the wire |
| `Application`, `FileTransfer` | file transfer over a byte stream, and over a connection |
| `SendQueue` | the queue between the network layer's threads |

## Where the code departs from its purpose

Each of these is modelled as it is in the code.

- Sums of sequence numbers wrap at 2^32 before the remainder modulo 2^32 - 1 is taken
  (transport_layer/transport_layer.c:512, :840, :841), while acknowledgments are computed in 64 bits
  (:850). `PlusAgrees` says when it makes a difference. `SlidingWindow` is parameterised by the
  arithmetic: `RunIsSafe` is proved with modular arithmetic for streams of any length, and
  `CodeSafeExactly` says exactly how far the code is safe, whatever old packets arrive.
- A retransmitter looks up the end of its segment without the remainder (:425): `LookupKeyAgrees`.
  The retransmitter of a segment that ends at 2^32 - 1 therefore stops at once: `LastByteStops`.
- The comparison tree puts numbers beyond zero on the wrong side (:882-938): `TreeSplitsExactly`.
  The receiver then acknowledges data that it drops: `AcksSoundExactly`, and, in a run from any
  starting state with a window of two bytes or more, `CodeLosesData`.
- In the passive side's sum for the back edge of its window the remainder applies to one operand
  only (:669). The edge is then one number too far back, or stored as 2^32 - 1 if the active side drew
  the random number 0. The comparison tree takes 2^32 - 1 for 0 (`TreeSplitsExactly` covers it), so
  that neither does any harm: `ConnectedStartsWindow`, `ConnectionIsSafe`.
- Data that arrive before a side is connected leave its connection mutex locked (:793-798), and that side is never
  connected: `StrayDataWedges`, `WedgedForever`, `CanConnectExactly`.
- A window of more than 16 bits is kept and announced as another, while the numbers move by it as it is
  (:173-240): `OpenedWindowExactly`.
- The last acknowledgment of the handshake is sent once. If it is lost, one window of data is all
  that ever gets through in that direction: `CanDeliverExactly`.
- A host learns routes before it has entered its neighbours, and then may hold the cost 2 of a
  neighbour although no simple path of two links leads there: `CostIsPathLengthExactly` says when, and
  `AlwaysPathsExactly` on which topologies it never happens.
- Reassembly compares with the size of the new fragment where that of the listed one is meant
  (net_layer/list/net_list.c:252), writes through a null pointer (:186), reads through one (:284),
  links a list into a cycle (:281-285), and appends fragments in the order of arrival where its comment (:225-229)
  promises the order of offsets: `AddedAsDocumentedExactly`, `InOrderExactly`, `CutAgainMayCrash`,
  `SwappedStaysSwapped`. A fragment that is repeated on the way crashes it too, unless it is the first,
  the last or of another length than its predecessor: `RepeatsExactly`. `OrderedReassembly` proves what the comment promises.
- The link refuses a packet of exactly its MTU (link_layer/link.c:153), which fragmentation produces:
  `LinkTakesAllExactly`. The receive buffer is as long as the largest MTU and leaves no room for the
  link's own header (link_layer/link.c:71, :224): `CutPassesExactly`.
- The size field of a frame is copied from without being compared with anything (link_layer/link.c:272-276), and the
  header's size is a sum without parentheses (link_layer/link.h:18), so that what is allocated is eight bytes less than was
  received. A frame that is one or two bytes longer than the receive buffer can therefore still get through:
  `ReceivedExactly`. And one that does not fit can be damaged into another without the checksum telling:
  `WithstandsExactly` for all changes of one byte, `NoDrawForgesExactly` for those that the garbler makes, and
  `LongFrameForged` in the topology the program comes with (config/topology.cnf:18).
- The network layer finds the checksum of a packet by the packet's own size field (net_layer/net_layer.c:202-207), but
  computes it over all that came (:484). A change of that field can cut a packet short unnoticed: `NetSizeDamageExactly`,
  `NetWithstandsExactly`. No other change of one byte goes unnoticed: `NetDamageIsSeen`, `SegmentDamageIsSeen`.
- An MTU of 20 to 27 makes the fragmentation loop run for ever, and below 20 the size of a piece
  underflows (net_layer/frag/frag.c:49-84): `CutUpExactly`.
- A file of 2^31 bytes or more is cut off or not sent at all, and an empty file is reported missing
  (application_layer/application_layer.c:49-54, :128): `TransferExactly`, `LongFile`.

A window of 0 makes the code divide by zero (transport_layer/transport_layer.c:531); `Accounted` and
everything about runs asks for at least 1.

## Model

| member | source | states |
|---|---|---|
| SequenceSpace.PlusAgrees | transport_layer/transport_layer.c:512 | the 32-bit sum reduced afterwards is the sum modulo 2^32 - 1 exactly when it stays below 2^32 |
| SequenceSpace.LookupKeyAgrees | transport_layer/transport_layer.c:425 | the number a retransmitter looks up is the one its entry was listed under exactly when the segment does not end at 2^32 - 1 |
| SequenceSpace.SeqOfPlus | transport_layer/transport_layer.c:850 | modular sums of numbers are the numbers of the sums of positions |
| SequenceSpace.SeqOfInjective | transport_layer/transport_layer.h:19 | positions less than one turn apart that share a number are equal |
| SequenceSpace.TreeAcceptsWindow | transport_layer/transport_layer.c:804-938 | the comparison tree discards exactly the numbers outside the circular window, whether or not it passes zero |
| SequenceSpace.TreeSplitsExactly | transport_layer/transport_layer.c:804-938 | the tree tells old from new as circular distance does, for every back edge of 32 bits, except for exactly the numbers on the far side of zero |
| SequenceSpace.TreeRightIffUnwrapped | transport_layer/transport_layer.c:804-938 | the tree is right about every number exactly when the window does not pass zero or its back edge is stored as 2^32 - 1 |
| AckList.ExpectedAcks.Insert | transport_layer/ack/ack_lst.c:12-28 | the new entry goes to the end of the list and nothing else changes |
| AckList.ExpectedAcks.Set | transport_layer/ack/ack_lst.c:57-68 | exactly the first entry with the number is flagged |
| AckList.ExpectedAcks.IsSet | transport_layer/ack/ack_lst.c:81-92 | the flag of the first entry with the number, and true if there is none; what that means for a retransmitter is said by `StopsExactly` |
| AckList.ExpectedAcks.InSeq | transport_layer/ack/ack_lst.c:95-111 | removes exactly the flagged entries before the first unflagged one and returns the sum of their sizes |
| AckList.TotalSizeSplit | transport_layer/ack/ack_lst.c:95-111 | the bytes removed and the bytes that stay listed add up to the bytes listed before |
| AckList.TotalSizeMarked | transport_layer/ack/ack_lst.c:57-68 | acknowledging changes no byte count |
| SegmentList.SplitConserves | transport_layer/segment/seg_lst.c:161-200 | what a read returns followed by what stays is what was there, and its length is the smaller of requested and available |
| SegmentList.SplitKeepsEnd | transport_layer/segment/seg_lst.c:161-200 | what stays is the end of the list, of which only the first segment can have lost bytes, and not all |
| SegmentList.StoredExactly | transport_layer/segment/seg_lst.c:52-82 | an early segment is listed only if none with its number is, and nothing listed is lost |
| SegmentList.SegmentBuffers.TakeNext | transport_layer/segment/seg_lst.c:21-50 | unlinks exactly the first early segment with the number, or reports that there is none |
| SegmentList.SegmentBuffers.StoreEarly | transport_layer/segment/seg_lst.c:52-82 | an early segment is kept at the end unless its number is listed already |
| SegmentList.SegmentBuffers.DrainFrom | transport_layer/segment/seg_lst.c:84-159 | the loop moves the run of early segments that continues the stream to the ready list, ends, and returns the bytes moved |
| SegmentList.SegmentBuffers.Insert | transport_layer/segment/seg_lst.c:84-159 | the expected segment is appended with the run behind it, any other is kept as early, and the return value is the advance of the stream |
| SegmentList.SegmentBuffers.Receive | transport_layer/segment/seg_lst.c:161-200 | the loop ends, empty segments included, splits the last segment it reads from, and returns and leaves what `SplitConserves` says |
| Sender.SendPoint.CutSegment | transport_layer/transport_layer.c:488-565 | one turn of the sending loop on the fields of the service point; how much it takes is said by `CutKeepsAccount` |
| Sender.SendPoint.Slide | transport_layer/transport_layer.c:532-554 | one look at the list of acknowledgments while the window is full |
| Sender.OpenedAccounted | transport_layer/transport_layer.c:464-484 | a connection starts with its window accounted for |
| Sender.CutKeepsAccount | transport_layer/transport_layer.c:488-565 | cutting takes off the front of the message as much as there is, up to 512 bytes and up to what the window has left, lists it under the number behind it, waits exactly when that fills the window, and keeps the listed sizes equal to the window pointer, or to the window when full |
| Sender.SlideKeepsAccount | transport_layer/transport_layer.c:532-554 | sliding frees exactly the bytes of the acknowledged front, goes on exactly when there are any, and keeps the account |
| Sender.MarkKeepsAccount | transport_layer/ack/ack_lst.c:57-68 | acknowledging keeps the account |
| Receiver.RecvPoint.Take | transport_layer/transport_layer.c:834-858 | a new segment is inserted, the three numbers move by what was appended, and its end is acknowledged |
| Receiver.RecvPoint.OnData | transport_layer/transport_layer.c:804-989 | the whole comparison tree with its discards, repeated acknowledgments and insertions |
| Receiver.TakenWindow | transport_layer/transport_layer.c:840-842 | after a new segment the window starts exactly one window behind the next expected number and ends one ahead, or one number short of it where the 32-bit sum wraps |
| Receiver.AcksSoundExactly | transport_layer/transport_layer.c:868-989 | the code's receiver stands for every segment it acknowledges, whatever its buffers hold, exactly when its window does not pass zero ahead of the expected number |
| Receiver.LostBeyondZero | transport_layer/transport_layer.c:882-938 | any new number beyond zero is acknowledged and neither kept nor read |
| SlidingWindow.Sandwich | transport_layer/transport_layer.c:488-566 | sender base <= next expected byte <= next byte to send <= sender base + window, and the listed sizes are exactly what is outstanding |
| SlidingWindow.NumbersApart | transport_layer/transport_layer.h:19 | segments less than one turn apart have different numbers |
| SlidingWindowSafety.InitHolds | transport_layer/transport_layer.c:661-773 | the state the handshake leaves satisfies the invariant |
| SlidingWindowSafety.CutKeeps | transport_layer/transport_layer.c:488-530 | cutting and first sending a segment keeps the invariant |
| SlidingWindowSafety.SlideKeeps | transport_layer/transport_layer.c:532-554 | sliding the window keeps the invariant: only segments the receiver has taken are released |
| SlidingWindowSafety.NextIsNotEarly | transport_layer/segment/seg_lst.c:84-159 | the segment the receiver waits for is never among its early ones |
| SlidingWindowSafety.AckNamesItsCut | transport_layer/ack/ack_lst.c:57-68 | an acknowledgment matches no entry but that of the segment it was sent for, unless its number has come round to that of a listed one |
| SlidingWindowSafety.AckKeeps | transport_layer/ack/ack_lst.c:57-68 | taking any acknowledgment keeps the invariant, old ones that name no listed entry included |
| SlidingWindowSafety.StopMeansAcknowledged | transport_layer/transport_layer.c:417-441 | a retransmitter is told to stop exactly when the entry of its own segment is flagged |
| SlidingWindowSafety.StopsExactly | transport_layer/transport_layer.c:417-441 | a retransmitter ends exactly when its segment has been acknowledged, listed still or released before, and no other ends with it |
| SlidingWindowSafety.StopKeeps | transport_layer/transport_layer.c:417-441 | ending a retransmitter keeps the invariant: a segment without one is acknowledged |
| SlidingWindowSafety.DrainFollows | transport_layer/segment/seg_lst.c:84-159 | of cuts of one stream kept in any order, draining moves exactly the maximal contiguous run, leaves none that starts where it stopped, and keeps the numbers left distinct |
| SlidingWindowSafety.InsertedInOrder | transport_layer/segment/seg_lst.c:84-159 | the expected segment and the run behind it are appended, with the exact byte count as return value, and nothing held is lost |
| SlidingWindowSafety.InsertedEarly | transport_layer/segment/seg_lst.c:52-82 | a segment that arrives early is held afterwards, stored now or before |
| SlidingWindowSafety.JudgedRight | transport_layer/transport_layer.c:804-989 | the circular comparison of numbers alone says that a segment is new exactly when the receiver has not taken it, for every copy whose number has not come round into the window |
| SlidingWindowSafety.JudgedOutstanding | transport_layer/transport_layer.c:804-989 | a copy of a segment the sender still waits for is judged new or old as it is, and the proviso never concerns it |
| SlidingWindowSafety.FreshBelowATurn | transport_layer/transport_layer.h:19 | the proviso holds of itself while less than a turn less a window has been sent |
| SlidingWindowSafety.DataKeeps | transport_layer/transport_layer.c:792-990 | receiving any copy of any segment, discarded, old, expected or early, keeps the invariant, however old it is, unless its number has come round to one that looks new |
| SlidingWindowSafety.StepKeeps | transport_layer/transport_layer.c:404-1023 | every step of application, sender, receiver and network keeps the invariant |
| SlidingWindowSafety.RunKeeps | transport_layer/transport_layer.c:404-1023 | the invariant holds in every state of every run |
| SlidingWindowSafety.InvIsSafe | transport_layer/transport_layer.c:316-441 | the invariant implies what the protocol promises: bytes read and ready are those of the segments taken, in order, and a prefix of those accepted, acknowledged segments are held, and only acknowledged segments are no longer retransmitted |
| SlidingWindowSafety.RunIsSafe | transport_layer/transport_layer.c:316-1023 | every state of every run keeps those three promises and the window sandwich, however the network loses, repeats and reorders, for streams of any length, under the proviso that `StaleCopyBreaks` and `StaleAckBreaks` show to be needed |
| SlidingWindowSafety.LiveSegmentAnswered | transport_layer/transport_layer.c:804-989 | a copy of a segment the sender still waits for is never discarded and always acknowledged |
| SlidingWindowProgress.StuckDeliversOneWindow | transport_layer/transport_layer.c:751-765 | once the handshake's own acknowledgment is lost, no run delivers more than one window |
| SlidingWindowProgress.OpenWindow | transport_layer/transport_layer.c:532-554 | a full window can be opened again from every state in which that acknowledgment is not lost |
| SlidingWindowProgress.CanDeliverExactly | transport_layer/transport_layer.c:404-566 | everything accepted can still be delivered exactly when that acknowledgment is not lost or what was accepted fits one window, with modular arithmetic and in the code below the modulus |
| WrappingRuns.JudgedByTree | transport_layer/transport_layer.c:804-989 | as long as positions are numbers the code's comparison tree tells new from old wherever the edges of the window lie, and discards nothing of the last window |
| WrappingRuns.EdgeOfCode | transport_layer/transport_layer.c:841 | the front edge that the code computes falls at most one number short |
| WrappingRuns.StopsInCode | transport_layer/transport_layer.c:417-441 | the same for the code below the modulus, however long ago the segment was released |
| WrappingRuns.StepKeepsIn | transport_layer/transport_layer.c:404-1023 | every step of the code after which no segment reaches 2^32 - 1 keeps the invariant of the modular machine |
| WrappingRuns.RunKeepsIn | transport_layer/transport_layer.c:404-1023 | so does every run of the code |
| WrappingRuns.CodeIsSafe | transport_layer/transport_layer.c:316-1023 | the code as written, with wrapping sums and its comparison tree, keeps all three promises for every window, every old packet and every run that accepts fewer bytes than there are numbers up to 2^32 - 1 |
| CodeLimits.Fill | transport_layer/transport_layer.c:404-566 | the code can bring a stream to any number below 2^32 - 1, within the first window even if the handshake's acknowledgment is lost |
| CodeLimits.LastByteStops | transport_layer/transport_layer.c:425 | a segment that ends at 2^32 - 1 is no longer retransmitted although nothing was acknowledged |
| CodeLimits.CodeSafeExactly | transport_layer/transport_layer.c:316-1023 | all runs of the code that accept at most n bytes keep the promises exactly when n bytes do not reach 2^32 - 1 from the first number, or the handshake's acknowledgment is lost and one window does not |
| CodeLimits.CodeLosesData | transport_layer/transport_layer.c:882-938 | from every starting state with a window of two bytes or more and an acknowledged handshake, a run of the code across zero after which a byte is acknowledged, no longer retransmitted and nowhere at the receiver |
| CodeLimits.StaleCopyBreaks | transport_layer/transport_layer.c:834-858 | after a turn a copy of the first segment carries the number expected now, and taking it delivers bytes that were never accepted |
| CodeLimits.StaleAckBreaks | transport_layer/ack/ack_lst.c:57-68 | after a turn the acknowledgment of the first segment names the entry of one that has not arrived |
| Handshake.ServicePoint.Connect | transport_layer/transport_layer.c:173-240 | starts an attempt exactly when unconnected: first number moved up by the window as given, the window stored and announced in 16 bits, expected acknowledgment and SYN |
| Handshake.ServicePoint.OnSyn | transport_layer/transport_layer.c:661-726 | answers a SYN exactly when unconnected, and a repeated one changes nothing |
| Handshake.ServicePoint.OnSynAck | transport_layer/transport_layer.c:741-773 | confirms a SYN+ACK exactly while connecting, and a repeated one changes nothing |
| Handshake.StepKeeps | transport_layer/transport_layer.c:156-773 | every step of an attempt, stray data included, keeps its invariant |
| Handshake.SidesAgree | transport_layer/transport_layer.c:661-773 | in every run each connected side expects exactly the number its peer sends next, the windows are equal, and the active side is connected only if the passive one is |
| Handshake.ConnectedStartsWindow | transport_layer/transport_layer.c:667-670 | a connected pair is a starting state of the sliding window in both directions, whatever was drawn |
| Handshake.AnsweringIs | transport_layer/transport_layer.c:667-706 | the numbers the passive side stores, the misplaced remainder included: its back edge is one less than the number drawn, or 2^32 - 1 for 0 |
| Handshake.OpenedWindowExactly | transport_layer/transport_layer.c:173-240 | the window kept and announced is the one asked for exactly when that has 16 bits, and otherwise differs by multiples of 2^16; the first number is moved up by the one asked for |
| Handshake.LastAckArrives | transport_layer/transport_layer.c:1007-1015 | the last acknowledgment, whenever it arrives, settles the one entry of the passive side |
| Handshake.WedgedForever | transport_layer/transport_layer.c:793-798 | a side that data reached too early is never connected |
| Handshake.StrayDataWedges | transport_layer/transport_layer.c:793-798 | data that reach a side before it is connected, at any time of an attempt, make it impossible to connect |
| Handshake.CanConnectExactly | transport_layer/transport_layer.c:661-798 | an attempt can still succeed exactly when it has, or the active side is not wedged |
| Handshake.EveryDrawConnects | transport_layer/transport_layer.c:156-773 | with every window of 16 bits but 0 and whatever numbers the sides draw, some attempt connects |
| Connection.ConnectionIsSafe | transport_layer/transport_layer.c:156-1023 | the code as written, from the first SYN on, is safe in both directions, whatever was drawn, while the bytes accepted do not reach 2^32 - 1, of which there are more than 2^31 - 2^17 |
| Routing.Router.constructor | net_layer/net_layer.c:640-738 | all routes unknown, neighbours those with a link |
| Routing.Router.Start | net_layer/net_layer.c:581-592 | enters the host itself and exactly its neighbours at cost 1 |
| Routing.Router.HandleRoute | net_layer/net_layer.c:549-571 | only a first or strictly better cost replaces an entry, and an advertisement for no host of the table is reported as a write beside it |
| Routing.Router.SendRoutes | net_layer/net_layer.c:604-634 | the loop over neighbours sends what `AdvertsToAllExactly` says |
| Routing.Router.SendTo | net_layer/net_layer.c:610-632 | the loop over hosts sends what `AdvertsToExactly` says |
| Routing.Router.HostReachable | net_layer/net_layer.c:740-765 | the neighbour to send to, or 0 for unknown and invalid destinations |
| Routing.LearnedExactly | net_layer/net_layer.c:557-563 | of two costs the smaller is kept, the entry itself if they are equal, and other entries stay; an advertised 0 erases |
| Routing.AdvertsToExactly | net_layer/net_layer.c:610-632 | a neighbour is told of exactly the known hosts, at one more than their cost, or 0 after 255 |
| Routing.AdvertsToAllExactly | net_layer/net_layer.c:604-634 | exactly the neighbours are told, each of exactly the known hosts |
| RoutingProtocol.StepKeeps | net_layer/net_layer.c:549-637 | every step of any host or of the network keeps the invariant, and no cost ever rises |
| RoutingProtocol.LearnedHasRoute | net_layer/net_layer.c:557-563 | an advertisement that improves extends a simple path to a simple path |
| RoutingProtocol.HistoryKeeps | net_layer/net_layer.c:549-637 | the invariant holds in every state of every history: an entry of cost c >= 2 names a neighbour whose own cost is below c, cost 1 means the host itself or a neighbour |
| RoutingProtocol.CostIsPathLengthExactly | net_layer/net_layer.c:557-563 | in every history every cost between two hosts is below 6, so that the 8-bit increment never wraps, and not below the length of some simple path; a finite cost is itself the length of a simple path exactly unless it is the 2 of a neighbour with which the host has no other neighbour in common |
| RoutingProtocol.StartedCostIsPathLength | net_layer/net_layer.c:579-593 | once a host has entered its neighbours every finite cost it holds of another is the length of a simple path |
| RoutingProtocol.NeighborOverestimated | net_layer/net_layer.c:579-593 | on every topology, for every link, a history in which a host that has not entered its neighbours holds the cost 2 of one |
| RoutingProtocol.AlwaysPathsExactly | net_layer/net_layer.c:549-637 | all finite costs in all histories are lengths of simple paths exactly on the topologies in which any two neighbours have another neighbour in common |
| RoutingProtocol.HopDescends | net_layer/net_layer.c:740-765 | a hop leads over a link to the destination or to a host strictly closer to it |
| RoutingProtocol.NoHopExactly | net_layer/net_layer.c:740-765 | there is no hop exactly for a destination that is no host or not known |
| RoutingProtocol.JourneyEnds | net_layer/net_layer.c:538-543 | a packet for a known destination arrives within the hops its cost said, over links only, with time to live to spare, while all tables change under it |
| RoutingProtocol.RoundsReach | net_layer/net_layer.c:601-636 | after k rounds a destination within k + 1 links is known at no more than the length of any walk there |
| RoutingProtocol.CostsConverge | net_layer/net_layer.c:601-636 | after k rounds the cost of every destination within k + 1 links is its distance, and a host's entry for itself stays 1 |
| RoutingProtocol.SettledForever | net_layer/net_layer.c:549-637 | once no walk is shorter than the cost known, no table ever changes again, gateways included, whatever advertisements arrive |
| RoutingProtocol.ConvergedForever | net_layer/net_layer.c:549-637 | after four rounds all tables are what they will ever be and hold every distance |
| Fragmentation.FragPack | net_layer/frag/frag.c:28-87 | the loop at the origin: sizes, offsets, more-fragments bits and truncations, and for which MTUs it does not end |
| Fragmentation.FragPackAgain | net_layer/frag/frag.c:89-157 | the loop at a relay, which keeps the bit of what it forwards |
| Fragmentation.CutUpExactly | net_layer/frag/frag.c:49-84 | the code cuts as it should from an MTU of 28 on, never ends for 20 to 27, and below sends everything in one piece with the offset and bit it should have |
| Fragmentation.PiecesTileExactly | net_layer/frag/frag.c:54-84 | the pieces cover the data from their position on, in multiples of 8 and with the right bits, exactly when the last offset fits 15 bits |
| Fragmentation.OriginTilesExactly | net_layer/frag/frag.c:28-87 | fragments cut at the origin cover the datagram exactly when it needs no cutting or the last offset fits, as it does up to 32768 bytes |
| Fragmentation.RelayTiles | net_layer/frag/frag.c:89-157 | what a relay makes of a fragment covers what the fragment covered, last or not |
| Fragmentation.RelayedTile | net_layer/frag/frag.c:89-157 | what a relay makes of all fragments, each with its own MTU, covers the same datagram |
| Fragmentation.TravelledTile | net_layer/frag/frag.c:28-157 | after any number of relays with any MTUs the fragments of up to 32768 bytes cover the datagram |
| Fragmentation.LinkTakesAllExactly | link_layer/link.c:150-158 | a datagram that is cut passes the link exactly when the MTU is not 4 more than a multiple of 8, although no piece exceeds the MTU |
| Reassembly.PackList.GetId | net_layer/list/net_list.c:23-38 | the first partial datagram with the id and source |
| Reassembly.PackList.AddOffset | net_layer/list/net_list.c:230-288 | the walk along the list with all its outcomes: appended, repeated, null read, cycle |
| Reassembly.PackList.InsertOffset | net_layer/list/net_list.c:135-223 | the counts of bytes and of the total, completeness, and the null write for a second datagram in one fragment |
| Reassembly.PackList.GetPack | net_layer/list/net_list.c:84-118 | the data in list order, and the entry removed |
| Reassembly.OthersUntouched | net_layer/list/net_list.c:135-223 | whatever arrives for one datagram, every other partial datagram keeps what it has |
| Reassembly.OthersStay | net_layer/list/net_list.c:84-118 | taking one datagram out leaves every other one |
| ReassemblyInOrder.InOrderExactly | net_layer/list/net_list.c:135-288 | fragments of any cover arriving in order come out as the datagram, other partial ones untouched, exactly when none is as long as the way from an earlier fragment other than its predecessor and a lone fragment meets an empty list; else the code crashes at the first that does it, with a null read if the way is from the first fragment, a cycle if from another, and a null write for a lone one |
| ReassemblyInOrder.CutOnceNeverSpans | net_layer/frag/frag.c:28-87 | a datagram that was cut once is never such a case |
| ReassemblyInOrder.CutAgainMayCrash | net_layer/list/net_list.c:281-285 | 32 bytes cut again at a relay that arrive in order and crash the receiver |
| ReassemblyRepeats.MeetsExactly | net_layer/list/net_list.c:252 | a repeated fragment meets the faulty comparison exactly when the one before it has its length |
| ReassemblyRepeats.EndRepeated | net_layer/list/net_list.c:246-279 | where the walk reaches the end of the list, a fragment changes nothing exactly when it repeats the last one |
| ReassemblyRepeats.RepeatsExactly | net_layer/list/net_list.c:135-288 | fragments of any cover arriving in order, each any number of times, come out as the datagram, with the repetitions of the last left over, exactly when they would without repetitions and none repeated in the middle meets the faulty comparison; else the code crashes at the first that does it, in the way `FaultOf` says |
| ReassemblyRepeats.LateRepeatPoisons | net_layer/list/net_list.c:168-193 | a repetition of the last fragment after completion opens an entry that makes the next datagram of one fragment a write through a null pointer |
| OrderedReassembly.OrderedIsInsertion | net_layer/list/net_list.c:225-229 | the documented insertion keeps the order of offsets and adds exactly the new fragment |
| OrderedReassembly.AddedAsDocumentedExactly | net_layer/list/net_list.c:225-288 | the code inserts as documented exactly when the list is empty, or its walk reaches the end and the fragment does not belong before the last |
| OrderedReassembly.SwappedStaysSwapped | net_layer/list/net_list.c:242-279 | two fragments that overtake each other are delivered in the wrong order |
| OrderedReassembly.ArrivedTracks | net_layer/list/net_list.c:225-229 | with the documented insertion, one arrival of any datagram keeps the entry of each datagram equal to the fragments that came |
| OrderedReassembly.AnyOrder | net_layer/list/net_list.c:84-229 | with the documented insertion, fragments in any order, repeated and interleaved with other datagrams, are handed up whole, once for each time they were all there |
| OrderedReassembly.CompleteIffAllCame | net_layer/list/net_list.c:84-229 | a datagram is handed up exactly when each of its fragments came, and never altered |
| OrderedReassembly.TravelledReassembles | net_layer/list/net_list.c:84-229 | the same for the fragments any relays made of a datagram of up to 32768 bytes |
| Checksum.Compute | checksum/checksum.c:17-45 | both loops end, and the result is the complement of the folded sum |
| Checksum.FoldedExactly | checksum/checksum.c:38-42 | folding the carries keeps the value modulo 65535, and zero apart from its multiples |
| Checksum.NoOverflow | checksum/checksum.c:23-36 | up to 131074 bytes, odd lengths included, the 32-bit sum does not wrap |
| Checksum.LongerMayOverflow | checksum/checksum.c:23-36 | data of all ones wrap it exactly when they are longer |
| Checksum.ComplementExactly | checksum/checksum.c:17-45 | the result is the complement of the one's-complement sum of sections 1 and 4.1 of RFC 1071 exactly when the sum does not wrap, or wraps a multiple of 65535 times and leaves something |
| Checksum.VerifiesToOnes | checksum/checksum.c:17-45 | data and checksum add up to all ones, as section 1 of RFC 1071 has it |
| Checksum.OneByteDetected | checksum/checksum.c:17-45 | every change of one byte changes the checksum |
| Encoding.LeRoundTrip | link_layer/link.c:260-278 | an integer field comes back exactly when it fits its width |
| Encoding.SealedIsIntact | link_layer/link.c:260-267 | what is sent with its checksum passes the comparison |
| Encoding.OneByteBreaks | link_layer/link.c:224-250 | whatever single byte changes, in the data or in the checksum, the comparison fails |
| Garbler.NoisyNetwork.SetGarbler | garbler/garbler.c:27-52 | which settings are refused, with which of the four codes, and that refused ones change nothing |
| Garbler.NoisyNetwork.SendToGarbled | garbler/garbler.c:55-104 | the packets that leave, for every pair of random numbers |
| Garbler.DiffersInOneByte | garbler/garbler.c:68-103 | whatever leaves differs from what was sent in at most one byte, and only in the corrupting share of draws |
| Link.LinkBuffers.BuildSendFrame | link_layer/link.c:260-267 | the buffer holds destination, size, data and checksum |
| Link.LinkBuffers.GetRecvFrame | link_layer/link.c:225-278 | the comparison of one packet and what is read out of it, size fields up to the end of what was received included |
| Link.LinkBuffers.InternalRecv | link_layer/link.c:222-251 | the loop discards exactly the packets before the first with a right checksum |
| Link.FrameRoundTrip | link_layer/link.c:260-278 | a frame is parsed back to its destination and data |
| Link.ReceivedExactly | link_layer/link.c:222-278 | an undamaged frame is received as sent exactly when it fits the receive buffer with its header and checksum, or is at most two bytes too long and what is left of it passes the comparison, and is never taken for another |
| Link.DamageIsSeen | link_layer/link.c:224-250 | a frame with one byte overwritten is received exactly when the byte has its old value |
| Link.GarbledFrameExactly | garbler/garbler.c:55-104 | for every draw: how many copies of a frame are accepted, none of them altered |
| Link.OnlyHonest | link_layer/link.c:222-251 | whatever arrives of whatever was sent, in any order and number: every receipt is a frame that was sent, or comes of one sent that does not fit the receive buffer and is a read too far or was damaged |
| Link.NeverForged | link_layer/link.c:222-251 | so when all frames fit the buffer, or no longer one is damaged, every accepted frame is one that was sent |
| Link.WithstandsExactly | link_layer/link.c:222-278 | for every destination and every size a link takes, all frames of that size withstand every change of one byte exactly when they fit the receive buffer |
| Link.NoDrawForgesExactly | garbler/garbler.c:68-103 | and none of them can be forged by any draw of the garbler exactly when they fit, or lose data besides the checksum while no draw makes the size field small enough for what is left |
| Link.LongFrameForged | config/topology.cnf:18 | a frame of 2995 bytes from host 3 to host 5, over the link with the MTU 3000, that one draw of the garbler turns into another that is accepted |
| Packets.PackedRoundTrip | net_layer/net_layer.c:162-209 | fields copied one behind the other come back exactly when each fits its width |
| Packets.NetRoundTrip | net_layer/net_layer.c:162-209 | a network packet comes back field for field exactly when its fields fit, with a checksum that matches |
| Packets.SegmentRoundTrip | transport_layer/transport_layer.c:379-401 | a segment, the empty one included, comes back field for field exactly when its fields fit, with a checksum that matches |
| Packets.BuildSendDatagram | net_layer/net_layer.c:162-184 | the buffer holds the header, the data and the checksum |
| Packets.BuildSendSegment | transport_layer/transport_layer.c:379-401 | the buffer holds the header, the data if any, and the checksum |
| Packets.UnpackedAt | net_layer/net_layer.c:187-209 | each field is read at the sum of the widths before it |
| Packets.BuildRecvDatagram | net_layer/net_layer.c:187-209 | what is read out of a network packet, and the comparison of the checksums |
| Packets.BuildRecvSegment | transport_layer/transport_layer.c:573-597 | what is read out of a segment, with or without data, and the comparison of the checksums |
| Packets.LayersUndo | transport_layer/transport_layer.c:573-597 | parsing frame, network packet and segment in turn returns every field and the payload |
| PacketDamage.FrameTakenExactly | link_layer/link.c:225-278 | a packet is taken for a frame that fills it exactly when it is what the sender makes of that frame, and discarded exactly when the comparison fails |
| PacketDamage.NetTakenExactly | net_layer/net_layer.c:187-209 | a packet is taken for one of the network layer that fills it exactly when it is what the sender makes of that one; the code reads beyond it exactly when it is shorter than its header or its size field says |
| PacketDamage.SegmentTakenExactly | transport_layer/transport_layer.c:573-626 | a packet is taken for a segment exactly when it is what the sender makes of that segment |
| PacketDamage.SegmentDamageIsSeen | transport_layer/transport_layer.c:573-626 | whatever byte of a segment is overwritten, it is discarded exactly when the byte changed |
| PacketDamage.NetDamageIsSeen | net_layer/net_layer.c:484-494 | whatever byte of a network packet behind its size field is overwritten, it is discarded exactly when the byte changed |
| PacketDamage.NetSizeDamageExactly | net_layer/net_layer.c:187-209 | a changed size field makes the code read too far when it grew, and otherwise cuts the data short exactly when the two bytes behind them happen to be the checksum of the changed packet |
| PacketDamage.NetWithstandsExactly | net_layer/net_layer.c:187-209 | all packets with n bytes of data withstand every change of one byte exactly for n = 0 |
| Packets.SegmentTravels | net_layer/net_layer.c:449-546 | a segment cut, cut again by any relays and arriving in any order is parsed to the segment once its fragments came, with the documented reassembly |
| Packets.CutPassesExactly | link_layer/link.c:150-158 | a datagram that is cut gets through link and receive buffer exactly when the MTU is not 4 more than a multiple of 8 and a full piece with all headers fits the buffer, never over a link with the largest MTU |
| Application.Outbox.SendPoint | transport_layer/transport_layer.c:316-359 | at most 32751 bytes of a message are accepted, from its front, and none while there is no connection |
| Application.Outbox.SendIps | application_layer/application_layer.c:342-358 | the loop sends exactly the whole message, and ends exactly when there is a connection or nothing to send |
| Application.Outbox.Upload | application_layer/application_layer.c:128-167 | the stream gets the size and then the chunks of the file, which are what the service point takes of the messages it is handed |
| Application.Outbox.UploadChunks | application_layer/application_layer.c:154-166 | the loop ends and sends one message for each 1020 bytes or the rest |
| Application.Inbox.RecvAll | application_layer/application_layer.c:367-376 | under every schedule of short and empty reads the loop gets exactly the bytes it wants, as long as bytes keep coming |
| Application.Inbox.RecvIps | application_layer/application_layer.c:360-390 | exactly one message is read, to its end and not beyond |
| Application.FrameLengthExactly | application_layer/application_layer.c:360-390 | a message is as long as its prefix says, or 2^32 longer if that does not even count the prefix |
| Application.Inbox.DownloadChunks | application_layer/application_layer.c:82-92 | the loop ends when the sender's did, with the same bytes |
| Application.Inbox.Download | application_layer/application_layer.c:49-97 | under every schedule the result is what was uploaded and the stream is read exactly to the end of the upload |
| Application.PayloadIsPrefix | application_layer/application_layer.c:154-166 | what is stored is a prefix of the file, at most one chunk beyond the announced size |
| Application.TransferExactly | application_layer/application_layer.c:128-166 | a file arrives as it was exactly when it has 1 to 2^31 - 1 bytes |
| Application.LongFile | application_layer/application_layer.c:49-166 | what is stored of a longer file goes by the low 32 bits of its size: nothing, an empty file, or that many bytes to the end of a chunk |
| FileTransfer.AcceptedAreFronts | transport_layer/transport_layer.c:316-359 | what a run accepts is what an `Outbox` sends that is handed the same messages, whatever other steps come between |
| FileTransfer.ReadsTheUpload | transport_layer/transport_layer.c:361-376 | in every run of the code in which the messages handed over are those of an upload, or the first of them, the bytes read at the other end are the first bytes of the upload |
| FileTransfer.FileArrivesExactly | application_layer/application_layer.c:82-166 | once all messages of an upload are handed over, the whole upload can still be read exactly when the acknowledgment of the handshake is not lost or the upload fits one window |
| FileTransfer.DownloadDelivered | application_layer/application_layer.c:49-97 | and the download of what a run has then delivered, in whatever portions, ends with what is to be stored of the file, which is the file itself if it has 1 to 2^31 - 1 bytes |
| SendQueue.WaitList.Insert | net_layer/net_layer.c:212-238 | the item goes to the end of the queue and nothing else changes |
| SendQueue.WaitList.Remove | net_layer/net_layer.c:241-260 | the item at the front is returned and the others stay |
| SendQueue.NoOverwrite | net_layer/net_layer.c:219-230 | a producer about to write, among any number, writes no slot whose item is yet to be taken |
| SendQueue.ReadIsWritten | net_layer/net_layer.c:246-252 | the consumer about to read reads the next item written |
| SendQueue.StepKeeps | net_layer/net_layer.c:212-260 | every step of every thread, semaphores and mutex included, keeps the invariant |
| SendQueue.OrderAndCapacity | net_layer/net_layer.c:212-260 | in every run items leave in the order in which they were written, and permits and threads in between add up to the capacity |
| SendQueue.SlotsAreSafe | net_layer/net_layer.c:212-260 | in every run every write and every read hits the right slot |
| SendQueue.NeverStuck | net_layer/net_layer.c:212-260 | while the queue is full or an item is yet to be taken, some thread other than a waiting one can go on |

## Left out

- Closing a connection (FIN, `close_conn`) and connecting a service point again.
- Links going down: `disable_route`, `enable_route` and `config_link`; the topology is fixed.
- Sockets, threads, sleeping and the mutexes that hand packets between layers: a hand-off is one step, and a timeout is a step that may happen at any time.
- Memory management: leaks, double frees, `rm_ack` with its uninitialised pointer; lists are modelled by their contents.
- Semaphore values that an earlier process left behind: the queue starts with fresh ones.
- Writing past buffers: a packet that would make the code do it, or read beyond what was received, is an outcome of its own (`Overrun`), and what happens afterwards is not modelled.
- Reading the request of a download (the file's name) and files that change while they are sent.
- Configuration, menus, logging, statistics and the test layers.
- Liveness under fairness: `CanDeliverExactly`, `CanConnectExactly` and `NeverStuck` say what can still happen, not that it will.
- SlidingWindowSafety.RunIsSafe: under modular arithmetic leaves out deliveries of packets whose number has come round into the window (`FreshData`, `FreshAck`); `StaleCopyBreaks` and `StaleAckBreaks` show that with them it is false.
- SequenceSpace.TreeSplitsExactly: assumes a window shorter than the circle of numbers, as every window of 16 bits is.
- Handshake.SidesAgree: one attempt of one side; two sides that connect to each other at the same time are not modelled.
- Handshake.StepKeeps: the window asked for is 1 to 65535; `Connect` shows what the code makes of a larger one, but the runs do not start from it.
- RoutingProtocol.CostsConverge: a round is a stretch of a history in which every host told all neighbours all it knew, without loss.
- Routing.Router.HandleRoute: what a write beside the table overwrites is not modelled; `HistoryKeeps` says that no host ever sends an advertisement that causes one.
- OrderedReassembly.AnyOrder: is about the insertion that the code documents; what the code as it is does is said by `InOrderExactly`, `RepeatsExactly`, `AddedAsDocumentedExactly` and `SwappedStaysSwapped`, and not for every order of arrival.
- OrderedReassembly.CompleteIffAllCame: takes all fragments with one id and source to be of one datagram; ids have 16 bits and come round (net_layer/net_layer.c:345-348), after which a datagram left incomplete meets the fragments of a later one, which is not modelled.
- Packets.SegmentTravels: uses the documented insertion too.
- Fragmentation.TravelledTile: the largest message of a service point with its header is 32768 bytes, so its bound excludes none of them.
- Link.NeverForged: frames have at most 131074 bytes before the checksum, which is twice what one datagram of the underlying service can carry.
- PacketDamage.NetDamageIsSeen: the same bound, and so for the other lemmas about damaged packets.
- Link.WithstandsExactly: the same bound, and sizes of 12 bytes or more; every packet of the network layer has 20.
