# Verification of the dbase library core

A Dafny model of the parts of dbase with the most state: the KCP reliable transport, the hierarchical timer
wheel, the serial and sharded executors, overflow-checked fractions, length-field framing over the growable
buffer, the output side of a TCP connection, the asynchronous logger, the LRU cache and the configuration tree.
`dafny verify dfyconfig.toml` checks everything.

What is proved, component by component:

- **KCP** (`Words`, `KcpWire`, `KcpCore`, `KcpInvariants`, `KcpNetwork`, `KcpDelivery`, `KcpRefinement`,
  `KcpCalls`, `KcpClock`, `KcpTraffic`, `KcpProgress`, `KcpRound`, `KcpChoice`, `KcpWindow`, `KcpLiveness`,
  `KcpStall`, `KcpEndpoint`). `KcpCore` states each operation as a function of the control block, once for 32-bit
  sequence numbers and once for numbers that never wrap. `KcpEndpoint` is the control block as a class whose
  methods update it in place; each method is proved equal to the 32-bit function. `KcpInvariants` holds for
  arbitrary calls and datagrams; `KcpCalls`, `KcpClock` and `KcpTraffic` say exactly what each call answers, when
  an update flushes, and what a flush sends. `KcpNetwork` and `KcpDelivery` put two endpoints and a network that
  drops, repeats and reorders datagrams into one state machine over unbounded numbers; `KcpRefinement` proves that
  the 32-bit program on bytes is the image of that machine and carries reliable delivery and no premature release
  over to it. `KcpProgress` shows that a due segment gets through and is released in one exchange, `KcpRound` that
  one round without loss gives out every message sent. `KcpLiveness` and `KcpStall` decide when delivery always
  stays possible: from every reachable state, by updates that set no clock back, arrivals and receives alone,
  everything sent can still be given out, if and only if the low 16 bits of the receive window, which are all that
  is told of it, are not those of an incomplete message that can be outstanding before anything was told. All are
  carried to the 32-bit program on bytes.
- **Timer wheel** (`TimerWheel`, `TimerManager`, `TimerRun`). The reference is a map from timers to the tick they
  are due. The manager, with its slot lists, positions and remainders, is proved to refine it.
- **Executors** (`SerialExecutor`, `ExecutorProgress`, `ShardedExecutor`). Every atomic access is one step of some
  thread, and all results are for every interleaving.
- **Fractions** (`Rationals`, `Fraction`). Number theory over unbounded integers, and the 64-bit class against it;
  values are compared as reals.
- **Framing** (`Framing`, `Buffer`), **TCP output** (`TcpOutput`, `TcpConnection`) and both together
  (`FramedStream`).
- **Logger** (`AsyncLogger`, `FlushOrder`), **LRU cache** (`Recency`, `LruCache`), **configuration** (`ConfigTree`,
  `Config`).

Assumptions about the outside world: a KCP mtu fixed before the first send, a receive window of at least 256, each
send window and the peer's receive window together below 2^31, the token set, an update interval that is not 0 and
below 2^31 (the program clamps it to 10 to 5000 ms); memory for every array and vector that is not longer than its
type allows, in all components (the limits themselves, and what happens beyond them, are part of the buffer and
configuration models); a kernel that takes no more bytes than it is offered; callbacks that do not call back into
the object that called them, except where a row says otherwise. Regions under a lock are single steps.

Properties that turn out false of the code are stated with the condition under which they hold, exact unless
"Left out" says otherwise, and a concrete instance where they fail:

| property | condition | instance |
|---|---|---|
| a timer registered from a callback is due after its delay | `RegisteredMidStep` | `CallbackAfterWrap` |
| a cascaded timer keeps its tick while catching up | `Cascade` | `CatchUpIsLate`, `CatchUpIsEarly` |
| no accepted task is stranded | `StrandedExactly`, `QuietExactly`, `CompletesExactly` | `RefusalStrands`, `RestartStrands` |
| flush() waits for its own item | `EarlyExactly`, `WaitsForItsOwn` | `ReturnsBeforeItsOwnFlush` |
| flush() returns once its item is dealt with | `ReturnsExactly` | `FlushCanHang` |
| everything sent can still be delivered | `NeverStuckExactly` | `WideWindowStalls` |
| an update at the time told by check sends something | `FlushesThen` | `CalledInVain` |
| an old segment is ignored | `StaleFiledExactly` | `StaleSegmentAccepted` |
| a length is decoded or refused | `ThrowsExactly`, `ThrowsOnlyPostpone` | `ThrowHoldsBack` |
| the compaction guard is right | `GuardExact`, `Buffer.MakeSpace` | `GuardWraps`, `PrependThenAppend`, `WrappedRequest` |
| a difference that fits is computed | `SafeSub` | `SubRefusesMin` |
| no sent byte is lost | `LostExactly` | `OverflowGoesUnnoticed` |
| the pause flag is right about the backlog | `StepSteady` | `MarksSetLate` |
| a live connection that is not paused reads | `DeafExactly` | `SwitchingOffDeafens` |
| get after set returns the value | `GetSet` | `GreatestIndex`, `LongIndex` |
| set leaves other paths alone | `SetElsewhere` | `ContainerThrownAway` |
| values() lists exactly what get reads | `Config.Values`, `Configure` | `LeadingDot`, `StaleListing` |

## Model

| member | source | states |
|---|---|---|
| `Words.Signed32` | code/src/net/ikcp.c:137-140 | the signed difference lies in [-2^31, 2^31) and is the true one when that fits |
| `Words.DiffWraps` | code/src/net/ikcp.c:137-140 | for numbers less than 2^31 apart, the wrapped comparison gives their true distance, so equal words mean equal numbers |
| `Words.DiffChain` | code/src/net/ikcp.c:137-140 | distances add up along a chain of numbers within a window, wrapped or not |
| `KcpWire.Get8Put8` | code/src/net/ikcp.c:53-65 | an 8-bit field reads back as written, leaving the rest |
| `KcpWire.Get16Put16` | code/src/net/ikcp.c:67-91 | a 16-bit field reads back cut to 16 bits |
| `KcpWire.Get32Put32` | code/src/net/ikcp.c:93-120 | a 32-bit field reads back cut to 32 bits |
| `KcpWire.ReadFrontEncode` | code/src/net/ikcp.c:853-878 | the header reader takes exactly one encoded segment off the front and returns it, cut to its field widths |
| `KcpWire.ReadFrontExactly` | code/src/net/ikcp.c:846-878 | what the reader makes of any header, whoever wrote it: a foreign conversation (-1), a length past the end (-2), a foreign token (-4) and an unknown command (-3) are refused in this order, anything else is read |
| `KcpWire.ParseUpTo` | code/src/net/ikcp.c:846-990 | segments of this conversation followed by bytes at which the reader stops: the segments are read, and the code is that of the stop |
| `KcpWire.ParseEncodeAll` | code/src/net/ikcp.c:846-990 | the parse loop reads any list of encoded segments back as exactly that list, with code 0 and nothing left over |
| `KcpWire.PackExact` | code/src/net/ikcp.c:1089-1302 | grouping into datagrams loses, repeats and reorders nothing; each datagram is non-empty and at most mtu bytes |
| `KcpWire.PackGreedy` | code/src/net/ikcp.c:1089-1302 | a new datagram is begun only when the next segment does not fit the one being filled |
| `KcpInvariants.ParseUnaKeeps` | code/src/net/ikcp.c:654-672 | una processing keeps the send buffer strictly increasing in [una, nxt) and only moves una forward, for any una |
| `KcpInvariants.ParseAckKeeps` | code/src/net/ikcp.c:629-652 | the same for any selective acknowledgement |
| `KcpInvariants.RemoveSnOne` | code/src/net/ikcp.c:636-650 | at most one segment is removed, the one acknowledged, and the others keep their order |
| `KcpInvariants.FillKeeps` | code/src/net/ikcp.c:1184-1207 | new segments leave the queue in order, take consecutive numbers, and never exceed the send window |
| `KcpInvariants.InsertKeeps` | code/src/net/ikcp.c:766-790 | insertion keeps the receive buffer strictly increasing and free of duplicates, whatever arrives |
| `KcpInvariants.MoveKeeps` | code/src/net/ikcp.c:797-813 | moving ready segments appends to the queue exactly what the buffer loses, numbered on from rcv_nxt |
| `KcpInvariants.OnPacketKeeps` | code/src/net/ikcp.c:880-986 | every parsed segment keeps the whole endpoint invariant and moves una only forward |
| `KcpInvariants.InputKeeps` | code/src/net/ikcp.c:829-1029 | any byte string given to input, malformed or not, keeps the invariant, also when it is rejected part-way |
| `KcpInvariants.ForeignRefused` | code/src/net/ikcp.c:853-876 | any datagram of another conversation is refused with -1, one of another token with -4, and the control block is unchanged |
| `KcpInvariants.BadHeaderRefused` | code/src/net/ikcp.c:846-878 | a header with a length past the end is refused with -2, one with an unknown command with -3; the segments before it have taken effect, without the closing step |
| `KcpInvariants.ShortTail` | code/src/net/ikcp.c:829-850 | fewer bytes than a header are refused with -1 when they are all, and ignored behind whole segments |
| `KcpInvariants.SendKeeps` | code/src/net/ikcp.c:502-590 | send keeps the invariant for any buffer and length |
| `KcpInvariants.RecvKeeps` | code/src/net/ikcp.c:381-468 | recv keeps the invariant for any length |
| `KcpInvariants.FlushKeeps` | code/src/net/ikcp.c:1060-1330 | flush keeps the invariant |
| `KcpInvariants.RunKeeps` | code/src/net/ikcp.c:381-1369 | over every run of calls with arbitrary arguments and datagrams, in 32-bit arithmetic: rcv_buf strictly increasing within [rcv_nxt, rcv_nxt+rcv_wnd), rcv_queue consecutive up to rcv_nxt-1 and at most rcv_wnd long, snd_buf strictly increasing within [snd_una, snd_nxt), snd_una its head and never moving back, at most snd_wnd in flight |
| `KcpInvariants.SumIsMerged` | code/src/net/ikcp.c:473-496 | for any queue, the lengths peeksize adds up come to the length of what recv joins |
| `KcpInvariants.PeekIsMerged` | code/src/net/ikcp.c:473-496 | a size is announced if and only if the companions of the first fragment are queued, and it is then the length of what recv joins |
| `KcpInvariants.RecvLength` | code/src/net/ikcp.c:395-439 | a successful recv returns as its code exactly the number of bytes it hands out, so the assertion at 439 holds |
| `KcpInvariants.FullQueueDelivers` | code/src/net/ikcp.c:486-486 | a full receive queue never yields a negative peeksize |
| `KcpCalls.SendExactly` | code/src/net/ikcp.c:502-590 | a message is refused if and only if its length is negative (-1) or more than 255 full segments (-2), and then nothing changes; otherwise exactly its pieces are queued: joined they are the message, all but the last are full, and they count down to 0 |
| `KcpCalls.MoveExactly` | code/src/net/ikcp.c:442-457 | segments move up in order until one is missing or the queue is full; none is lost or repeated |
| `KcpCalls.RecvExactly` | code/src/net/ikcp.c:381-468 | -1 exactly on an empty queue, -2 exactly while fragments are missing, -3 exactly when the room is too small, and then nothing changes; otherwise the joined fragments, taken off the queue unless peeking; the window is to be told exactly if the queue was full and is no longer |
| `KcpCalls.InputTells` | code/src/net/ikcp.c:880-986 | after a datagram the peer's window is the one its last segment told, and ours is to be told if and only if it was before or a segment asked |
| `KcpCalls.NoteAcksGreatest` | code/src/net/ikcp.c:898-919 | the number kept from a datagram is the greatest it acknowledges, if it acknowledges any |
| `KcpCalls.SkippedExactly` | code/src/net/ikcp.c:674-699 | exactly the waiting segments below that number, if it is outstanding, count one more that overtook them |
| `KcpInvariants.FlushedPackets` | code/src/net/ikcp.c:1076-1302 | every segment flushed can be encoded, fits one datagram and carries una = rcv_nxt |
| `KcpInvariants.FlushRoundTrip` | code/src/net/ikcp.c:1060-1302 | every datagram of a flush is at most mtu bytes and parses back to exactly the segments packed into it, in order |
| `KcpNetwork.PushTrue` | code/src/net/ikcp.c:938-961 | a data segment carrying what its number names leaves the receiver holding only true data, and every pending acknowledgement for something held |
| `KcpNetwork.ParseUnaTrue` | code/src/net/ikcp.c:654-672 | releasing below a truthful una releases nothing the receiver does not hold |
| `KcpNetwork.ParseAckTrue` | code/src/net/ikcp.c:629-652 | releasing on a truthful acknowledgement releases nothing the receiver does not hold |
| `KcpDelivery.MergeFragments` | code/src/net/ikcp.c:408-437 | merging the fragments of a message gives back the message, and takes exactly its fragments |
| `KcpDelivery.NextMessage` | code/src/net/ikcp.c:381-468 | the next complete message in the receive queue is the next message the other side accepted |
| `KcpDelivery.UnaReleases` | code/src/net/ikcp.c:654-672 | exactly the segments below una are released |
| `KcpDelivery.AckReleases` | code/src/net/ikcp.c:629-652 | exactly the acknowledged segment is released |
| `KcpDelivery.PushHeld` | code/src/net/ikcp.c:938-961 | a data segment inside the window is held afterwards and acknowledged |
| `KcpDelivery.StepKeeps` | code/src/net/ikcp.c:381-1369 | every step of two endpoints and a lossy, duplicating, reordering network keeps the world invariant: true data, true acknowledgements, nothing lost, messages in order |
| `KcpDelivery.RunWorldKeeps` | code/src/net/ikcp.c:381-1369 | the world invariant holds after every run |
| `KcpDelivery.DeliveryEffect` | code/src/net/ikcp.c:829-1029 | when a datagram arrives, every data segment of it inside the window is held and every segment it acknowledges is released |
| `KcpRefinement.ParseUnaWraps` | code/src/net/ikcp.c:654-672 | una processing on 32-bit numbers is the image of the same processing on unbounded numbers |
| `KcpRefinement.PushWraps` | code/src/net/ikcp.c:938-961 | the same for a data segment that has not fallen half the number space behind |
| `KcpRefinement.InputWraps` | code/src/net/ikcp.c:829-1029 | the same for a whole datagram, from its bytes |
| `KcpRefinement.FlushWraps` | code/src/net/ikcp.c:1060-1330 | the same for flush, datagrams included |
| `KcpRefinement.StepRefines` | code/src/net/ikcp.c:381-1369 | one step of the 32-bit program on bytes is the image of one step of the unbounded model |
| `KcpRefinement.RunRefines` | code/src/net/ikcp.c:381-1369 | the program refines the unbounded model over whole runs in which no datagram is older than half the number space |
| `KcpRefinement.ReliableDelivery` | code/src/net/ikcp.c:381-1369 | in every such run, what each side has received is a prefix, byte for byte and in order, of what the other side accepted |
| `KcpRefinement.NoPrematureRelease` | code/src/net/ikcp.c:615-672 | in every such state, each number below snd_nxt missing from snd_buf is held by the peer |
| `KcpRefinement.FewSegmentsFresh` | code/src/net/ikcp.c:137-140 | with fewer than 2^31 segments per direction (less a window) no delay can make a datagram too old |
| `KcpRefinement.ReliableDeliveryBounded` | code/src/net/ikcp.c:381-1369 | reliable delivery under that bound alone, for any delay, loss and repetition |
| `KcpRefinement.PushFiles` | code/src/net/ikcp.c:754-961 | a data segment is filed if and only if its number lies in the receive window and no buffered segment has it; otherwise the receiver holds what it held |
| `KcpRefinement.StaleFiledExactly` | code/src/net/ikcp.c:754-961 | a segment numbered below rcv_nxt is filed by the 32-bit receiver if and only if its age modulo 2^32 is 0 or more than 2^32 less the window, and no buffered segment has the same word; on unbounded numbers it never is |
| `KcpRefinement.StaleSegmentAccepted` | code/src/net/ikcp.c:938-961 | an instance: a segment delayed by the whole number space is taken for a new one |
| `KcpProgress.FillComplete` | code/src/net/ikcp.c:1184-1207 | filling stops only at an empty queue or a full window |
| `KcpProgress.TransmitExact` | code/src/net/ikcp.c:1214-1295 | a flush sends a segment if and only if it was never sent, is overdue, or was skipped often enough |
| `KcpProgress.DueGoesOut` | code/src/net/ikcp.c:1213-1302 | every due segment of the filled buffer is among the packets flushed, carrying its own fragment |
| `KcpProgress.AckGoesOut` | code/src/net/ikcp.c:1089-1106 | every pending acknowledgement is among the packets flushed |
| `KcpTraffic.NumbersExactly` | code/src/net/ikcp.c:1176-1207 | a flush numbers as many queued segments as the least of send, peer and congestion window leaves room for, and no more |
| `KcpTraffic.NewSegments` | code/src/net/ikcp.c:1184-1207 | the segments there are kept; each new one is due at once, never sent and overtaken by none |
| `KcpTraffic.DueExactly` | code/src/net/ikcp.c:1214-1262 | a segment goes out if and only if it never did, its time has come, or as many later ones as configured were acknowledged and it was not sent too often |
| `KcpTraffic.FlushSays` | code/src/net/ikcp.c:1060-1172 | every pending acknowledgement goes out first, in order, and is forgotten; the question about the window goes out exactly when due, the answer exactly when asked; before the first update nothing happens |
| `KcpTraffic.DataStamped` | code/src/net/ikcp.c:1259-1265 | every data segment carries the clock of its flush, rcv_nxt and the free window |
| `KcpTraffic.EchoesExactly` | code/src/net/ikcp.c:938-940 | a data segment below the end of the window is acknowledged once, echoing its stamp; nothing else adds or removes an acknowledgement |
| `KcpTraffic.ProbeWaits` | code/src/net/ikcp.c:1108-1137 | while the peer's window is closed the next question is set 7 s ahead, then half as long again each time up to 120 s, and stays until it comes |
| `KcpTraffic.BacksOff` | code/src/net/ikcp.c:1217-1262 | how long each segment then waits: one timeout at first, twice or one and a half times as long after every timeout, as before when sent again early |
| `KcpTraffic.RttExactly` | code/src/net/ikcp.c:595-613 | the estimate moves an eighth towards a sample and never past it, the variation a quarter, and the timeout follows from both within its limits |
| `KcpTraffic.SamplesExactly` | code/src/net/ikcp.c:887-893 | only an acknowledgement that echoes a time not ahead of the clock is a sample |
| `KcpTraffic.TransmitFlags` | code/src/net/ikcp.c:1214-1295 | which flushes saw a timeout, an early retransmission, or a segment sent as often as the dead-link limit |
| `KcpTraffic.ClosesOnLoss` | code/src/net/ikcp.c:1305-1330 | the congestion window and threshold after a timeout, after an early retransmission, and otherwise |
| `KcpTraffic.OpensExactly` | code/src/net/ikcp.c:992-998 | the congestion window is opened exactly when a datagram released the oldest segment |
| `KcpTraffic.OpensSlowly` | code/src/net/ikcp.c:999-1027 | below the threshold it grows by one segment, and never past the peer's window |
| `KcpClock.UpdateExactly` | code/src/net/ikcp.c:1337-1369 | an update flushes if and only if it is the first, or the time set for it has come or is more than 10 s ahead; the next time is then set at most an interval ahead; otherwise only the clock changes and nothing is put out |
| `KcpClock.FlushesOnTime` | code/src/net/ikcp.c:1337-1369 | after an update that flushed, one that comes an interval later, or longer, flushes again |
| `KcpClock.WaitingIsHarmless` | code/src/net/ikcp.c:1409-1461 | until the time told by check, an update puts nothing out, no segment's time comes, and leaving it out changes no later update |
| `KcpClock.FlushesThen` | code/src/net/ikcp.c:1421-1461 | an update at the time told flushes if and only if that is the time set for a flush; a segment overdue before it makes check tell of updates that put nothing out |
| `KcpClock.CalledInVain` | code/src/net/ikcp.c:1446-1453 | an instance: with a segment overdue before the time to flush, check tells of an update at once that puts nothing out |
| `KcpProgress.OnPacketAcks` | code/src/net/ikcp.c:938-940 | acknowledgements are only added, and a segment below the window end adds its own |
| `KcpProgress.SegmentGetsThrough` | code/src/net/ikcp.c:829-1302 | from any reachable state, one flush and one delivery put a due segment inside the window at the other side with its acknowledgement pending |
| `KcpProgress.AckGetsBack` | code/src/net/ikcp.c:829-1302 | one flush back and one delivery release an acknowledged segment |
| `KcpProgress.RoundTripReleases` | code/src/net/ikcp.c:829-1302 | from any reachable state, four steps without loss hand over a due segment and release it |
| `KcpProgress.BytesGetThrough` | code/src/net/ikcp.c:829-1302 | the same of the program on bytes, in every run of fewer than 2^31 segments per direction (less a window) |
| `KcpRound.RunSettled` | code/src/net/ikcp.c:442-457 | in every run, the next segment in order waits in rcv_buf only behind a full rcv_queue |
| `KcpRound.ExchangeArrives` | code/src/net/ikcp.c:829-1302 | from any reachable state in which everything sent may go out and fits the receive window: after one flush and the arrival of its datagrams the receiver has everything in order |
| `KcpRound.NextComplete` | code/src/net/ikcp.c:473-496 | with everything in order, the next message sent is complete in the queue |
| `KcpRound.RoundDelivers` | code/src/net/ikcp.c:381-1302 | from any such state, one flush, the arrival of exactly the datagrams it put out, and receives give out every message the other side has sent |
| `KcpRound.BytesRoundDelivers` | code/src/net/ikcp.c:381-1302 | the same of the 32-bit program on bytes, in every run of fewer than 2^31 segments per direction (less a window) |
| `KcpChoice.Resend` | code/src/net/ikcp.c:1213-1369 | from any reachable state, updates that set no clock back and one delivery can be chosen so that any segment of the send buffer inside the receive window is held there and acknowledged |
| `KcpChoice.AskWindow` | code/src/net/ikcp.c:1108-1369 | a sender that was told a closed window can be made to ask, by updates that set no clock back, so that the peer has something to tell |
| `KcpChoice.Hear` | code/src/net/ikcp.c:829-1029 | a peer with something to tell can be made to: the sender then knows its window and has released everything below its next number |
| `KcpWindow.RunUnheard` | code/src/net/ikcp.c:1184-1330 | in every run, a sender whose peer has put nothing out has numbered no more than its first window: one segment under congestion control, otherwise the smaller of its send window and 256 |
| `KcpWindow.RunHeard` | code/src/net/ikcp.c:1076-1088 | in every run, if that is less than the low 16 bits of the receive window, a peer that has put anything out has told an open window |
| `KcpLiveness.NumberGivenOut` | code/src/net/ikcp.c:1184-1207 | when everything numbered has arrived and more is queued, another number can be given out, whatever the congestion and peer windows stand at |
| `KcpLiveness.NeverStuck` | code/src/net/ikcp.c:381-1369 | for a send window that is not 0 and no stall possible (such as all receive windows below 65536): from every reachable state, whatever was lost, delayed or repeated, updates that set no clock back, deliveries and receives, and nothing else, can be chosen that give out everything sent; nothing is flushed but by these updates |
| `KcpLiveness.SmallWindowsNeverStall` | code/src/net/ikcp.c:1526-1542 | a receive window of 256 to 65535, with any send window, is never one where a stall is possible |
| `KcpLiveness.BytesNeverStuck` | code/src/net/ikcp.c:381-1369 | the same of the 32-bit program on bytes and its clocks, in every run of fewer than 2^31 segments per direction (less a window) |
| `KcpStall.StallsForever` | code/src/net/ikcp.c:1076-1088 | a sender with nothing outstanding that was told a closed window, by a peer that never told another, whose window now has low 16 bits 0 and whose queue has no complete message, never gets another message through, in any continuation |
| `KcpStall.WideWindowStalls` | code/src/net/ikcp.c:1076-1088 | for every pair of configurations where a stall is possible: a run of few segments after which all messages accepted but the last were given out, and the last never will be, in any continuation |
| `KcpStall.BytesStall` | code/src/net/ikcp.c:1076-1088 | the same of the 32-bit program on bytes, which has accepted the same messages |
| `KcpStall.NeverStuckExactly` | code/src/net/ikcp.c:381-1369 | for every two configurations that can talk to each other: from every reachable state everything sent can still be given out, if and only if not both: the low 16 bits of the receive window are below 255, and they are at most the first window of the sender |
| `KcpEndpoint.Endpoint.constructor` | code/src/net/ikcp.c:241-316 | a new control block with all counters and queues empty |
| `KcpEndpoint.Endpoint.Send` | code/src/net/ikcp.c:502-590 | return code and new state of send, in place, equal the specification |
| `KcpEndpoint.Endpoint.PeekSize` | code/src/net/ikcp.c:473-496 | the loop computes the size of the next whole message, or -1 |
| `KcpEndpoint.Endpoint.Recv` | code/src/net/ikcp.c:381-468 | code, data and new state equal the specification; a code that is not negative is the number of bytes returned |
| `KcpEndpoint.Endpoint.Take` | code/src/net/ikcp.c:402-467 | the message joined, what is ready moved up, and the window to be told if it opens |
| `KcpEndpoint.Endpoint.Merge` | code/src/net/ikcp.c:408-437 | the merge loop returns the message and removes exactly its fragments unless peeking |
| `KcpEndpoint.Endpoint.MoveReady` | code/src/net/ikcp.c:442-457 | the loop that moves ready segments |
| `KcpEndpoint.Endpoint.ParseUna` | code/src/net/ikcp.c:654-672 | the una loop, with its counter |
| `KcpEndpoint.Endpoint.ShrinkBuf` | code/src/net/ikcp.c:615-627 | snd_una becomes the head of the buffer, or snd_nxt |
| `KcpEndpoint.Endpoint.ParseAck` | code/src/net/ikcp.c:629-652 | the acknowledgement loop, with its counter |
| `KcpEndpoint.Endpoint.ParseFastack` | code/src/net/ikcp.c:674-699 | the skip-count loop |
| `KcpEndpoint.Endpoint.ParseData` | code/src/net/ikcp.c:754-813 | scan from the back, insert unless repeated, move what is ready |
| `KcpEndpoint.Endpoint.OnPacket` | code/src/net/ikcp.c:880-986 | one parsed segment |
| `KcpEndpoint.Endpoint.Input` | code/src/net/ikcp.c:829-1029 | return code and new state for any bytes equal the specification; what those are for foreign, short and malformed datagrams is stated by ForeignRefused, BadHeaderRefused and ShortTail |
| `KcpEndpoint.Endpoint.FillWindow` | code/src/net/ikcp.c:1184-1207 | the loop that numbers new segments |
| `KcpEndpoint.Endpoint.WriteAcks` | code/src/net/ikcp.c:1089-1106 | acknowledgements written into datagrams as they fill |
| `KcpEndpoint.Endpoint.WriteProbes` | code/src/net/ikcp.c:1139-1172 | window probes written |
| `KcpEndpoint.Endpoint.WriteData` | code/src/net/ikcp.c:1213-1295 | data segments stamped and written |
| `KcpEndpoint.Endpoint.Flush` | code/src/net/ikcp.c:1060-1330 | new state and emitted bytes equal the specification packed into datagrams |
| `KcpEndpoint.Endpoint.Update` | code/src/net/ikcp.c:1337-1369 | new state and bytes put out equal the specification; when it flushes is stated by UpdateExactly |
| `KcpEndpoint.Endpoint.Advance` | code/src/net/ikcp.c:1337-1364 | the clock and the time of the next flush, in place |
| `KcpEndpoint.Endpoint.Check` | code/src/net/ikcp.c:1421-1461 | the time told is now if and only if it is time to flush or a segment is overdue; otherwise it is the nearest of the time to flush, the segments' times and one interval |
| `KcpEndpoint.NextResend` | code/src/net/ikcp.c:1446-1455 | the loop finds the nearest time of a segment, or that one is overdue |
| `TimerWheel.LowIsRemainder` | code/src/time/timer_wheel.cpp:62-68 | mixed radix: the wheels below w show the tick modulo one slot of w |
| `TimerWheel.PlaceIsExact` | code/src/time/timer_wheel.cpp:58-77 | with the wheels showing tick e, delay d is placed due at exactly e+d, and the stored remainder is (d mod base)+(e mod base) |
| `TimerWheel.RegisteredMidStep` | code/src/time/timer_wheel.cpp:154-183 | a registration from a callback after n wheels turned is due at t+d if and only if the delay stays below wheel n or wheel n is not about to turn; otherwise one slot of wheel n early |
| `TimerWheel.CallbackAfterWrap` | code/src/time/timer_wheel.cpp:154-183 | an instance: delay 256 registered from wheel 0 at tick 256 is due at once |
| `TimerManager.TurnedKeeps` | code/src/time/timer_wheel.cpp:156-159 | turning the next wheel moves no timer in time |
| `TimerManager.RoundComplete` | code/src/time/timer_wheel.cpp:180-183 | a wheel is back at slot 0 exactly when the tick is a multiple of the next wheel's slot, so stopping there is right |
| `TimerManager.PopFirst` | code/src/time/timer_wheel.cpp:162-178 | a timer in the slot just reached is due when its remainder has passed |
| `TimerManager.Cascade` | code/src/time/timer_wheel.cpp:175-178 | a cascaded timer is due after its remainder plus the clock lag (one slot less if the next wheel is about to turn and is reached); it keeps its tick if and only if there is no lag, or the next wheel is about to turn and the lag is one slot of it, or the 32-bit sum wraps with one tick left; with a lag of at most 15872 it is put off by exactly the lag |
| `TimerManager.CatchUpIsLate` | code/src/time/timer_wheel.cpp:47-53 | an instance: one tick of lag makes a cascaded timer one tick late |
| `TimerManager.CatchUpIsEarly` | code/src/time/timer_wheel.cpp:47-53 | an instance: a lag of 16383 ticks makes a cascaded timer one tick early |
| `TimerManager.TimerMgr.Locate` | code/src/time/timer_wheel.cpp:58-75 | the shifting loop finds wheel, slot and remainder of the specification, with no unsigned underflow |
| `TimerManager.TimerMgr.RegisterTimer` | code/src/time/timer_wheel.cpp:35-79 | the timer is due exactly its lag-adjusted delay later (0 counts as 1), registered before or not, and no other timer is touched |
| `TimerManager.TimerMgr.UnRegisterTimer` | code/src/time/timer_wheel.cpp:81-90 | the timer and no other is no longer pending; -1 exactly when it was not registered |
| `TimerManager.TimerMgr.Step` | code/src/time/timer_wheel.cpp:154-185 | whatever the clock: all timers due at the new tick fire, nothing fires twice, the rest stay pending; with a lag of at most 15872 exactly those fire and each other timer keeps its tick or is put off once by the lag; in step they all keep it; with any lag, whether a timer fires and where it goes is a function of its own wheel, slot and remainder |
| `TimerManager.TimerMgr.TickInternal` | code/src/time/timer_wheel.cpp:125-139 | as many steps as the clock is ahead; every timer fires at most once and none is lost; with a lag of at most 15872 none fires before its tick, or later than it by more than the lag for each step before; with any lag, a timer fires in a step if and only if its own wheel, slot and remainder lead there; one step in step is exact |
| `TimerRun.FiresExactlyOnce` | code/src/time/timer_wheel.cpp:35-185 | a timer registered with delay d and left alone fires in the d-th tick after that and in no other, over every run of registrations, cancellations and ticks |
| `TimerRun.CancelledNeverFires` | code/src/time/timer_wheel.cpp:81-90 | a cancelled timer left alone never fires |
| `TimerRun.Run` | code/src/time/timer_wheel.cpp:35-185 | the wheels carry out any run exactly as the map from timers to ticks does |
| `SerialExecutor.TokenKeeps` | code/src/thread/serial_executor.cpp:60-99 | the running flag is a token: set exactly while one thread owns it or one drain waits in the pool |
| `SerialExecutor.CallsExactly` | code/include/dbase/thread/serial_executor.h:42-65 | a submission is pushed exactly past its three checks; start() and stop() alone change the flags |
| `SerialExecutor.DrainsExactly` | code/src/thread/serial_executor.cpp:60-99 | a drain takes the next task while there is one; who tries to set the running flag, and when |
| `SerialExecutor.WaitsExactly` | code/include/dbase/sync/blocking_queue.h:161-165 | a submission waits exactly while the queue is full, limited and not stopped |
| `SerialExecutor.OneAtATimeInOrder` | code/src/thread/serial_executor.cpp:80-99 | in every interleaving at most one thread drains, tasks begin in push order, and each begins only when the earlier ones are done |
| `SerialExecutor.NoneStranded` | code/src/thread/serial_executor.cpp:60-99 | until a hand-over is lost, a waiting task always has a drain or a thread on its way to schedule() |
| `SerialExecutor.QuietMeansDone` | code/src/thread/serial_executor.cpp:60-99 | when all threads are idle and the pool is empty, an executor that is not stopped and has lost no hand-over has run every accepted task |
| `SerialExecutor.StrandedExactly` | code/src/thread/serial_executor.cpp:18-99 | in every interleaving, a task is stranded if and only if the executor is not stopped, nobody is on the way to schedule(), and since the flag was last taken a drain was refused, or start() stored over a stop(), with tasks waiting |
| `SerialExecutor.QuietExactly` | code/src/thread/serial_executor.cpp:18-99 | when all threads are idle and the pool is empty, an executor that is not stopped has run every accepted task if and only if no hand-over was lost in that way |
| `SerialExecutor.SmoothStrandsNothing` | code/src/thread/serial_executor.cpp:18-99 | in particular: if the pool accepts drains and start() does not store over a stop(), no task is stranded |
| `SerialExecutor.RefusalStrands` | code/src/thread/serial_executor.cpp:68-77 | a refused drain can strand a task |
| `SerialExecutor.RestartStrands` | code/src/thread/serial_executor.cpp:18-38 | stop() between the two steps of start() can strand a task though the pool refused nothing |
| `ExecutorProgress.CompletesExactly` | code/src/thread/serial_executor.cpp:60-99 | from every reachable state that is not stopped: some run without another push and without a refusal completes every task, if and only if nothing waits, or a drain is pooled or runs, or somebody is on the way to schedule() |
| `ExecutorProgress.UnattendedMeans` | code/src/thread/serial_executor.cpp:60-99 | otherwise tasks are stranded, or about to be by an owner whose drain was refused |
| `ShardedExecutor.PerKeyOrder` | code/include/dbase/thread/sharded_executor.h:44-67 | tasks of a key that have begun on its shard are, in order, a prefix of all tasks pushed with that key, one at a time, and no other shard begins one, in every interleaving of all shards |
| `ShardedExecutor.SameShardExactly` | code/include/dbase/thread/sharded_executor.h:50-55 | two keys share a shard if and only if their hashes leave the same remainder |
| `Rationals.GcdGreatest` | code/src/math/fraction.cpp:392-401 | every common divisor divides the result of the Euclidean recursion |
| `Rationals.DividedOut` | code/src/math/fraction.cpp:252-256 | dividing both numbers by their greatest common divisor leaves them coprime |
| `Rationals.ReducedUnique` | code/src/math/fraction.cpp:180-183 | two reduced fractions of one value have equal fields |
| `Rationals.SumValue` | code/src/math/fraction.cpp:62-77 | the sum over the product denominator is the sum of the values |
| `Rationals.ProductValue` | code/src/math/fraction.cpp:96-122 | the product of numerators over that of denominators is the product of the values |
| `Fractions.SafeNegate` | code/src/math/fraction.cpp:279-286 | fails exactly when the negation does not fit |
| `Fractions.SafeAdd` | code/src/math/fraction.cpp:288-301 | fails exactly when the sum does not fit |
| `Fractions.SafeSub` | code/src/math/fraction.cpp:303-310 | fails exactly when the difference does not fit or the subtrahend is MIN |
| `Fractions.SubRefusesMin` | code/src/math/fraction.cpp:303-310 | an instance: -1 minus MIN is refused although the difference fits |
| `Fractions.SafeMul` | code/src/math/fraction.cpp:312-375 | fails exactly when the product does not fit |
| `Fractions.SafeCast` | code/src/math/fraction.cpp:377-390 | fails exactly above the signed maximum |
| `Fractions.GcdLoop` | code/src/math/fraction.cpp:392-401 | the loop computes the greatest common divisor |
| `Fractions.CompareUnsigned` | code/src/math/fraction.cpp:403-449 | terminates with the order of the cross products, which are never formed |
| `Fractions.CrossReduced` | code/src/math/fraction.cpp:105-119 | cross-cancellation leaves the product in lowest terms |
| `Fractions.Fraction.Assign` | code/src/math/fraction.cpp:20-23 | succeeds exactly when the denominator is not zero and the reduced fraction fits, except MIN/MIN; the result is that fraction |
| `Fractions.Fraction.Normalize` | code/src/math/fraction.cpp:239-268 | the same for the fields in place |
| `Fractions.Fraction.Add` | code/src/math/fraction.cpp:62-77 | the exact sum in lowest terms; fails exactly when a product, the sum or the common denominator does not fit, and then changes nothing |
| `Fractions.Fraction.Subtract` | code/src/math/fraction.cpp:79-94 | the exact difference, with the same for failure |
| `Fractions.Fraction.Multiply` | code/src/math/fraction.cpp:96-122 | the exact product in lowest terms; fails if and only if the reduced exact product does not fit |
| `Fractions.Fraction.Divide` | code/src/math/fraction.cpp:124-154 | the exact quotient in lowest terms; fails if and only if the divisor is zero, the reduced quotient does not fit, both numerators are MIN, or the divisor is negative and the reduced numerator is MIN |
| `Fractions.Fraction.Compare` | code/src/math/fraction.cpp:185-224 | the order of the rationals as reals; equal exactly when the fields are equal |
| `Framing.DecodeEncode` | code/src/net/length_field_codec.cpp:42-139 | decoding an encoded frame followed by anything returns its payload and leaves the rest |
| `Framing.EncodeDecode` | code/src/net/length_field_codec.cpp:42-139 | whatever is read as a frame is, byte for byte, the encoding of its payload |
| `Framing.EncodableExactly` | code/src/net/length_field_codec.cpp:42-139 | encoding refuses a payload if and only if no bytes whatever decode to it |
| `Framing.PrefixWaits` | code/src/net/length_field_codec.cpp:96-133 | a proper prefix of a frame is never decoded and never refused |
| `Framing.ThrowsExactly` | code/src/net/length_field_codec.cpp:107-138 | decoding throws if and only if an 8-byte payload length wraps the frame length to at most the maximum |
| `Framing.DecodeExactly` | code/src/net/length_field_codec.cpp:92-139 | exactly when each answer is given, in both modes, by width, maximum and the number in the length field; a frame is never longer than the maximum, and field, payload and rest are the bytes read |
| `Framing.DecodeStable` | code/src/net/length_field_codec.cpp:92-139 | more bytes never change an answer other than NeedMoreData |
| `Framing.ChunkingIndependent` | code/src/net/tcp_connection.cpp:602-767 | for any byte stream, well formed or not, however cut: same payloads, same reason to stop (a throw included), same bytes left over |
| `Framing.ThrowsOnlyPostpone` | code/src/net/length_field_codec.cpp:92-139 | a caller of the codec that catches, any byte stream, any cuts: what has come out, followed by what carrying on behind the offending length fields gives on the bytes left and those to come, is what the whole stream gives |
| `Framing.ChunkingBounds` | code/src/net/length_field_codec.cpp:92-139 | such a caller gets at least what a connection gets and at most what carrying on gives, and exactly that of the connection until something throws |
| `Framing.ThrowHoldsBack` | code/src/net/length_field_codec.cpp:92-139 | an instance: the length 2^64-1 throws and holds back the frame behind it, for good on a connection, until another piece arrives for a caller that catches |
| `Framing.FramingTransparent` | code/src/net/tcp_connection.cpp:745-767 | the encodings of any payloads, however cut, come back as exactly those payloads, never an error, nothing left over |
| `Buffers.GuardExact` | code/src/net/buffer.cpp:725-725 | the compaction guard is right about every length if and only if at least eight bytes are not readable; otherwise its subtraction wraps |
| `Buffers.GuardWraps` | code/src/net/buffer.cpp:725-725 | an instance: with eight readable bytes filling the array the guard claims room for any length |
| `Buffers.Buffer.constructor` | code/src/net/buffer.cpp:118-123 | an empty buffer |
| `Buffers.Buffer.Retrieve` | code/src/net/buffer.cpp:175-198 | drops that many readable bytes, all when there are fewer |
| `Buffers.Buffer.RetrieveAsString` | code/src/net/buffer.cpp:200-209 | splits the contents, or refuses and changes nothing |
| `Buffers.Buffer.MakeSpace` | code/src/net/buffer.cpp:711-741 | makes room without changing the contents, by compaction or growth; writes past the array exactly where the wrapped guard lets it, throws exactly where the new array would reach 2^63 bytes, and reports room that is not there exactly for lengths of 2^63 or more |
| `Buffers.Buffer.EnsureWritable` | code/src/net/buffer.cpp:235-241 | the same when room is short, and nothing otherwise; contents unchanged |
| `Buffers.Buffer.Append` | code/src/net/buffer.cpp:255-264 | contents followed by the new bytes, through every compaction and growth; the two failures exactly as above, contents unchanged |
| `Buffers.Buffer.Prepend` | code/src/net/buffer.cpp:295-307 | the new bytes followed by the contents if they fit the bytes in front, otherwise refused |
| `Buffers.PrependThenAppend` | code/src/net/buffer.cpp:711-741 | an instance: a buffer of size 0 with eight bytes prepended; appending one writes past its array |
| `Buffers.WrappedRequest` | code/src/net/buffer.cpp:711-741 | an instance: a buffer asked for 2^64-1 bytes reports nothing and has no such room |
| `Buffers.EncodeTo` | code/src/net/length_field_codec.cpp:42-83 | appends exactly one frame, or refuses exactly the payloads that do not fit the field or the maximum, or fails exactly where no room can be made; never for a buffer and payload below 2^60 bytes with the reserve free |
| `Buffers.Examine` | code/src/net/length_field_codec.cpp:96-133 | the length checks on the bytes at the front, which decide as DecodeExactly says |
| `Buffers.TryDecode` | code/src/net/length_field_codec.cpp:92-139 | status, payload and remaining contents equal the specification; each status is given exactly under its condition on mode, width, maximum and length field, and no frame exceeds the maximum; a throw has consumed the length field |
| `Buffers.HandleCodecMessages` | code/src/net/tcp_connection.cpp:745-767 | drains every complete frame, stops for the right reason and leaves the right bytes |
| `Buffers.ReceivePiece` | code/src/net/tcp_connection.cpp:602-767 | one piece is appended and exactly the frames then complete are taken |
| `Buffers.Receive` | code/src/net/tcp_connection.cpp:602-767 | receiving pieces into one buffer and draining after each gives exactly what the specification gives, and exactly the payloads sent, whatever the cuts; a stream below 2^60 bytes always finds room |
| `TcpOutput.NothingLost` | code/src/net/tcp_connection.cpp:517-576 | closing policy, every run: until disconnected, bytes given to the kernel then the output buffer are exactly the in-loop sends; write interest is on exactly while bytes wait |
| `TcpOutput.StepLoses` | code/src/net/tcp_connection.cpp:517-576 | one event throws bytes away if and only if it is a send on a live connection whose remaining bytes do not fit the output limit |
| `TcpOutput.LostExactly` | code/src/net/tcp_connection.cpp:769-817 | any policy, every run: bytes are missing if and only if some send met that guard |
| `TcpOutput.OverflowGoesUnnoticed` | code/src/net/tcp_connection.cpp:795-817 | an instance under the ignoring policy: the connection stays up and the bytes are gone |
| `TcpOutput.ShutdownComesLast` | code/src/net/tcp_connection.cpp:578-590 | the write side is shut only when everything sent has been handed over |
| `TcpOutput.EmptyingShuts` | code/src/net/tcp_connection.cpp:680-696 | while disconnecting, the write event that empties the buffer shuts the write side |
| `TcpOutput.DrainExactly` | code/src/net/tcp_connection.cpp:651-678 | one write event hands over exactly what the kernel takes, from the front; the connection goes exactly when a write that was attempted failed or took nothing |
| `TcpOutput.BlockedWritesNothing` | code/src/net/tcp_connection.cpp:663-668 | a write event that would block at once changes nothing |
| `TcpOutput.StepHands` | code/src/net/tcp_connection.cpp:517-678 | exactly the bytes each event hands to the kernel |
| `TcpOutput.StepWaits` | code/src/net/tcp_connection.cpp:517-678 | exactly the bytes that wait after each event |
| `TcpOutput.StepDisconnects` | code/src/net/tcp_connection.cpp:517-719 | one event disconnects if and only if it is a close, a failed write, a write event that took nothing, or an overflow under the closing policy; disconnecting begins exactly with a requested shutdown |
| `TcpOutput.DisconnectedExactly` | code/src/net/tcp_connection.cpp:517-719 | every run: the connection is gone if and only if one of these happened |
| `TcpOutput.ShutsExactly` | code/src/net/tcp_connection.cpp:578-696 | the write side is shut exactly by a shutdown that finds nothing waiting, or by the write event that empties the buffer while disconnecting |
| `TcpOutput.MarksExactly` | code/src/net/tcp_connection.cpp:270-289 | flow control sets the marks it is given, a low mark that is not below the high one to half of that; nothing else touches them |
| `TcpOutput.ReadsExactly` | code/src/net/tcp_connection.cpp:270-297 | a connection that goes stops reading and writing; otherwise it reads exactly as last told, except that a pause stops reading and a write event that ends the pause starts it |
| `TcpOutput.StepSteady` | code/src/net/tcp_connection.cpp:825-865 | every event keeps the pause flag right about the backlog; startRead and setting the marks do so if and only if the backlog is on the right side of the marks, paused or not |
| `TcpOutput.MarksSetLate` | code/src/net/tcp_connection.cpp:270-289 | an instance: marks set below a backlog already there pause nothing |
| `TcpOutput.StepDeaf` | code/src/net/tcp_connection.cpp:270-297 | one event leaves a live connection not reading and not paused if and only if it was stopRead while not paused, switching flow control off while paused, or it was so before and was neither started nor paused |
| `TcpOutput.DeafExactly` | code/src/net/tcp_connection.cpp:270-297 | every run: a live connection is in that state if and only if such an event stopped it and nothing has started or paused it since |
| `TcpOutput.SwitchingOffDeafens` | code/src/net/tcp_connection.cpp:272-279 | an instance: flow control switched off while paused ends connected, all output written, neither reading nor writing |
| `TcpOutput.StaysDeaf` | code/src/net/tcp_connection.cpp:291-297 | with flow control off, no event but startRead or switching it on again ever ends that |
| `TcpOutput.FlowControlSteady` | code/src/net/tcp_connection.cpp:270-289 | with flow control set up and no explicit startRead: paused implies more than the low mark waiting, no reading and write interest on; not paused implies less than the high mark |
| `TcpConnections.TcpConnection.SendInLoop` | code/src/net/tcp_connection.cpp:517-576 | takes the specified step for any kernel answer |
| `TcpConnections.TcpConnection.HandleOutputBufferAppend` | code/src/net/tcp_connection.cpp:769-817 | appends within the limit, or applies the overflow policy |
| `TcpConnections.TcpConnection.WriteOut` | code/src/net/tcp_connection.cpp:651-678 | the write loop, resuming reads as the backlog falls |
| `TcpConnections.TcpConnection.HandleWrite` | code/src/net/tcp_connection.cpp:643-697 | takes the specified step for any kernel answers |
| `TcpConnections.TcpConnection.ShutdownInLoop` | code/src/net/tcp_connection.cpp:578-590 | shuts the write side only when nothing waits |
| `TcpConnections.TcpConnection.HandleClose` | code/src/net/tcp_connection.cpp:699-719 | disconnects once and drops all interest |
| `TcpConnections.TcpConnection.MaybePauseReadForFlowControl` | code/src/net/tcp_connection.cpp:825-844 | pauses at or above the high mark |
| `TcpConnections.TcpConnection.MaybeResumeReadForFlowControl` | code/src/net/tcp_connection.cpp:846-865 | resumes at or below the low mark |
| `TcpConnections.TcpConnection.EnableAutoReadFlowControl` | code/src/net/tcp_connection.cpp:270-289 | sets the marks, lowering a low mark that is not below the high one |
| `FramedStream.EndToEnd` | code/src/net/tcp_connection.cpp:448-459 | frames sent through one connection: whatever part has arrived, in whatever pieces, decodes to a prefix of the payloads, and to all of them once everything sent has arrived |
| `AsyncLogger.FlushBarrier` | code/src/log/async_logger.cpp:99-144 | in every interleaving, when flush() can return from its wait, the worker has dealt with every item queued before that flush took its number |
| `AsyncLogger.NothingLost` | code/src/log/async_logger.cpp:163-220 | items are dealt with in queue order, a worker that has left has dealt with all, and the blocking policy drops nothing |
| `AsyncLogger.CallsExactly` | code/src/log/async_logger.cpp:89-125 | every log() takes a number, and a flush() does unless the logger is stopping; it is one more than the last |
| `AsyncLogger.HoldingExactly` | code/src/log/async_logger.cpp:234-269 | a thread waits exactly while the queue is full, no stop was asked for, and the policy blocks or its item is a flush; otherwise its item is queued exactly if there is room and no stop, and counted as dropped exactly if there is neither |
| `AsyncLogger.Accounted` | code/src/log/async_logger.cpp:234-269 | over every run, the items that met room are on the queue in order, those that met a full queue are counted, and the rest met a stop |
| `AsyncLogger.WorksExactly` | code/src/log/async_logger.cpp:163-220 | the worker takes all that waits, leaves exactly when told to stop with nothing waiting, and publishes each number after dealing with its item |
| `AsyncLogger.StepKeeps` | code/src/log/async_logger.cpp:99-269 | every step keeps queue order, published numbers and the numbering of waiting threads |
| `FlushOrder.WaitsForItsOwn` | code/src/log/async_logger.cpp:105-144 | in every interleaving: if no greater number is ahead of its item in the queue, flush() can return only after the worker has dealt with that item |
| `FlushOrder.OwnExists` | code/src/log/async_logger.cpp:105-144 | a waiting flush has its item on the queue, at exactly one place |
| `FlushOrder.EarlyExactly` | code/src/log/async_logger.cpp:105-220 | from every reachable state: flush() can still return before its own item is dealt with if and only if a greater number is ahead of that item and the worker has not gone past it |
| `FlushOrder.OvertakenReturnsEarly` | code/src/log/async_logger.cpp:163-220 | the worker's own steps are then enough |
| `FlushOrder.ReturnsExactly` | code/src/log/async_logger.cpp:105-220 | from every reachable state, the worker alone lets a waiting flush return if and only if the number on show, or one still to be published, is not less than its own |
| `FlushOrder.FlushCanHang` | code/src/log/async_logger.cpp:105-220 | an instance: flush() waits for good although its item was dealt with, because a smaller number was published after it |
| `AsyncLogger.ReturnsBeforeItsOwnFlush` | code/src/log/async_logger.cpp:141-144 | an instance: flush() returns before its own flush item is reached, because a greater number was ahead of it |
| `Recency.FindWithout` | code/include/dbase/cache/lru_cache.h:144-157 | removing a key leaves what is found under every other key |
| `Recency.NextDistinct` | code/include/dbase/cache/lru_cache.h:75-255 | every operation keeps keys distinct and the size within capacity |
| `Recency.NextFinds` | code/include/dbase/cache/lru_cache.h:75-255 | after one operation a put key is found with its value, the key taken out (removed, popped, or the last one when a new key does not fit) is not found, and every other key is found as before |
| `Recency.IncludedNext` | code/include/dbase/cache/lru_cache.h:75-255 | one operation on both caches keeps the smaller list a subsequence of the larger and the size gap within the capacity gap |
| `Recency.Inclusion` | code/include/dbase/cache/lru_cache.h:75-255 | over any trace, the smaller cache's recency list is a subsequence of the larger's, and what it finds the larger finds with the same value |
| `Recency.OrderIsRecency` | code/include/dbase/cache/lru_cache.h:216-255 | after any trace entries are ordered by when their key was last put or asked for, so what leaves from the end is the least recently used, and each holds the value last put |
| `LruCache.Lookup` | code/include/dbase/cache/lru_cache.h:106-118 | the index finds exactly the keys in the list, with their values |
| `LruCache.Cache.constructor` | code/include/dbase/cache/lru_cache.h:31-38 | an empty cache |
| `LruCache.Cache.Touch` | code/include/dbase/cache/lru_cache.h:233-239 | the node becomes the most recent, the others keep their order |
| `LruCache.Cache.EvictIfNeeded` | code/include/dbase/cache/lru_cache.h:241-255 | evicts least recent entries until the size is within capacity, and reports exactly those, the least recent first |
| `LruCache.Cache.Put` | code/include/dbase/cache/lru_cache.h:216-231 | the recency list after put, index and list in agreement; the least recent entry is reported evicted exactly when a new key meets a full cache |
| `LruCache.Cache.Get` | code/include/dbase/cache/lru_cache.h:106-118 | the value, and the entry becomes the most recent |
| `LruCache.Cache.Remove` | code/include/dbase/cache/lru_cache.h:144-157 | the entry is gone; true exactly when it was there |
| `LruCache.Cache.PopLru` | code/include/dbase/cache/lru_cache.h:159-173 | the least recent entry is taken |
| `LruCache.Cache.PopMru` | code/include/dbase/cache/lru_cache.h:175-189 | the most recent entry is taken |
| `LruCache.Cache.ClearAll` | code/include/dbase/cache/lru_cache.h:75-80 | the cache is empty |
| `LruCache.Replay` | code/include/dbase/cache/lru_cache.h:75-255 | any trace on a new cache gives the specified list, with index and list in agreement throughout |
| `ConfigTree.ParseDigits` | code/src/config/config.cpp:55-63 | parsing the decimal form of an index gives the index back |
| `ConfigTree.ZeroInFront` | code/src/config/config.cpp:13-63 | digits are an index however written: zeros in front lead to the same element |
| `ConfigTree.SplitJoined` | code/src/config/config.cpp:30-53 | splitting undoes joining with dots |
| `ConfigTree.JoinedSplit` | code/src/config/config.cpp:30-53 | joining undoes splitting, for every path |
| `ConfigTree.AssignDefined` | code/src/config/config.cpp:161-206 | an assignment is done if and only if every index is one a vector can have; otherwise the first that is not decides: 2^64-1 writes past the array, any other throws |
| `ConfigTree.GetBelow` | code/src/config/config.cpp:161-206 | after an assignment, reading at or below the path reads the assigned value |
| `ConfigTree.GetSet` | code/src/config/config.cpp:399-416 | for every tree and value: get after set returns the value if and only if every index of the path is one a vector can have; after a set that threw it finds nothing |
| `ConfigTree.GreatestIndex` | code/src/config/config.cpp:176-183 | an instance: the index 18446744073709551615 resizes to 0 and writes past the end |
| `ConfigTree.LongIndex` | code/src/config/config.cpp:170-179 | an instance: the index 9223372036854775807 throws, having made an empty array of the root |
| `ConfigTree.ThrownIsArraySet` | code/src/config/config.cpp:161-206 | a set that throws has set, at the path up to the offending index, the array that would not grow, and nothing else |
| `ConfigTree.SetElsewhere` | code/src/config/config.cpp:161-206 | a value elsewhere is untouched if and only if the paths part inside one kind of container; otherwise it is gone |
| `ConfigTree.ContainerThrownAway` | code/src/config/config.cpp:170-173 | an instance: setting "a.0" throws away what was at "a.b" |
| `ConfigTree.SetProper` | code/src/config/config.cpp:399-416 | set with any path, also if it throws, keeps keys and arrays addressable |
| `ConfigTree.DotHiddenExactly` | code/src/config/config.cpp:65-111 | a path that begins with a dot reads something if and only if the root has an empty key whose value has a child |
| `Configs.SplitPath` | code/src/config/config.cpp:30-53 | the splitting loop |
| `Configs.ExactFromRoot` | code/src/config/config.cpp:430-466 | a listing that covers the tree and adds nothing else holds exactly the canonical paths, if nothing is hidden behind an empty key |
| `Configs.HiddenNotListed` | code/src/config/config.cpp:430-448 | if something is, no listing free of paths that begin with a dot is exact |
| `Configs.AfterProper` | code/src/config/config.cpp:399-416 | settings with any paths, throwing ones among them, build addressable trees if and only if none writes past an array; if none throws the cache is dirty or up to date |
| `Configs.ListingTells` | code/src/config/config.cpp:430-466 | a listing exact for one tree is exact for another if and only if the other hides nothing behind an empty key and the two have the same children under every name |
| `Configs.Config.GetByPath` | code/src/config/config.cpp:65-111 | the walk returns what the path leads to, or nothing |
| `Configs.Config.Set` | code/src/config/config.cpp:399-416 | the new tree for every way to end; get of that path then returns the value, or nothing after a throw; only a set that is done marks the cache stale |
| `Configs.Config.FlattenInto` | code/src/config/config.cpp:430-466 | lists the subtree: every canonical path below, nothing else, and nothing outside is touched |
| `Configs.Config.Values` | code/src/config/config.cpp:384-391 | the listing of the tree last rebuilt from, which is exact for it if and only if the root has no empty key with a child; exact for the tree as it stands if and only if that hides nothing and is like the one rebuilt from; no listed path begins with a dot, and what an empty key hides shows up under the wrong path |
| `Configs.Configure` | code/src/config/config.cpp:384-416 | after any mix of settings, throwing or not, and listings, the same of the last listing; if none threw, it is exact if and only if no path that begins with a dot reads anything |
| `Configs.LeadingDot` | code/src/config/config.cpp:430-448 | an instance: after setting ".x" the listing holds "x", where get finds nothing, and not ".x", where get finds the value |
| `Configs.StaleListing` | code/src/config/config.cpp:399-416 | an instance: after "a.b", a listing and a throwing set below "a", the listing still holds "a.b", where get finds nothing |

## Left out

- KCP stream mode, statistics, logging and allocator hooks; `ikcp_setmtu` after the first send.
- KCP queues and the acknowledgement array are sequences: links between nodes, the array's doubling and segment
  allocation are not modelled. Round-trip arithmetic is on unbounded integers.
- KcpTraffic.OpensSlowly: how much the congestion window grows above the threshold is modelled, not described.
- KCP retransmission deadlines over unbounded time.
- KcpRound.RoundDelivers: says that a round without loss delivers everything, not that the network ever allows one.
- KcpLiveness.NeverStuck: says that delivery stays possible, not that the network and the clocks bring it about; an
  old datagram may have to be delivered again for it. A send window of 0, which ikcp_wndsize does not set, is not
  covered.
- KcpRefinement.ReliableDelivery: asks that no datagram is delivered after its numbers have fallen half the number
  space behind. That is enough for 32-bit numbers; which old data segments one receiver takes for new ones is
  stated exactly by `StaleFiledExactly`, but not which runs go wrong because of it.
- Timer lists are sequences of timer names; `DoubleLink` nodes, `PushFront`, wheel clearing and `resetWheels`
  are not modelled. The clock does not change within one call.
- TimerManager.TimerMgr.Step: callbacks are recorded, not run; what a registration made by one means is stated by
  `RegisteredMidStep`.
- Thread pool, futures and condition variables: the pool is an environment that runs or refuses each drain, and a
  full queue disables the push. That a runnable thread eventually runs is not modelled.
- Fractions.Fraction.Multiply: a failure may leave the numerator changed, as in the program.
- Unary fraction operators, streaming and conversion to double.
- Buffers.Buffer.MakeSpace: where the program writes past its array the model reports it and goes no further.
- Buffer searching, signed and raw integer access, socket reads and writes.
- Byte swapping is stated as big-endian bytes, not as shifts and masks.
- TCP input, timestamps, edge triggering, cross-thread queueing of sends and shutdowns, and callbacks.
- AsyncLogger.FlushBarrier: does not say that a waiting flush returns, because the published number can go down; when
  it does is stated by `ReturnsExactly`. That sinks were flushed is not claimed.
- Log formatting, levels and sinks.
- LRU locking, `peek` and read-only accessors; the evict callback is a returned list.
- Configs.Config.Values: for a cache built while an empty key hid something and kept by sets that threw, says only
  that an exact listing needs a tree that hides nothing; where a hidden and a plain path collide, the iteration order
  of the hash map decides which value is listed.
- Configuration trees are values: in-place updates of nodes, typed getters, loaders and the mutable `get`, which
  does not mark the cache stale, are not modelled.
- Sockets, pollers, event loop, files, random numbers, time formatting, coroutines, metrics and third-party code.
