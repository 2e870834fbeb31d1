# Verified models of pollnet's TCP code

pollnet is a low-latency networking library. Two of its parts do real TCP work: `TcpStream.h` rebuilds the
stream of a TCP connection from captured packets, and `efvitcp/` is a user-space TCP stack (connection table,
timers, send and receive paths, server). This project models both in Dafny and proves what they are for.

The modules follow the program:

| module | what it models |
|---|---|
| `OrderedProbing`, `TableGrowth`, `IdPools`, `ConnTable` | the connection hash table: linear probing with keys in order, deletion by shifting back, doubling in place, and the pools of connection and TIME_WAIT ids |
| `TableClash` | connections that make the doubling lose an entry |
| `TimerSpec`, `TimerLinks`, `TimerWheel` | the two-level timer wheel on intrusive circular lists, against a map from timer to due tick |
| `ServerSpec`, `TcpServer` | table, timers and records together: which packet goes to which connection, accepting, closing, TIME_WAIT; as values and as the class that refines them |
| `Segments`, `Reassembly`, `RangeBuffer`, `TcpStream` | the passive stream rebuilder |
| `RecvWindow`, `RecvSpec`, `TcpReceive` | the receive path of a connection: acceptance, reassembly with eviction, window, FIN |
| `SendSpec`, `SendWire`, `SendRuns`, `SendSlots`, `TcpSend` | the send ring: filling, sending, acknowledging, resending, FIN; the log of sent packets; whole runs |
| `EndToEnd` | a sender and a receiver together |
| `TcpConn`, `Serving` | both paths behind one handler of packets, what its packets say, how a connection ends, and what becomes of its entry and its resend timer at the server |
| `Checksum`, `SegmentChecksum` | the one's-complement sums, incremental and patched |
| `Rto` | round-trip estimation and the retransmission timeout |
| `Words` | 32-bit wrap-around and powers of two |

Where the source updates memory step by step, so does the model: classes with the source's fields, arrays for
its tables and buffers, loops where it loops. Ghost fields hold what the proof is about (the map a table stands
for, the stream the packets are pieces of, the packets sent so far), and class invariants tie them to the real
fields. An invariant therefore speaks of every state any sequence of calls can reach. (Where a contract says
`P(x) == true` it means `P(x)`; the comparison keeps the verifier from taking a large predicate apart. Predicates
such as `Sound` or `SenderOk` repeat an invariant under a quantifier for the same reason.)

## Main results

* **Connection table.** Every operation keeps the table equal to a finite map, and the layout depends on the set
  of keys alone (`UniqueLayout`). Doubling the table in place is **not** always right: from every peer address,
  64 connections bring about a table that is no longer that of the connections opened (`LosesEntry`). `DoubleTable`
  and `Admit` keep the map if and only if `SafeToGrow` holds, a condition on the keys before the call; a table
  without overflow tail always meets it (`NoTailIsSafe`).
* **Server.** Over every run (as long as each doubling is safe) a connection is open exactly when the table has
  its id under its peer's key, the timer node of a TIME_WAIT record is linked into the wheel exactly when the
  record is in use, and a packet of one peer touches no other peer's entry unless a handler closes that
  connection. A peer in TIME_WAIT that sends no expected RST stays in the table until the tick 60000 after it
  entered, and is gone in that tick (`TimeWaitLasts`, over any run of packets, polls and calls).
* **Timer wheel.** `PollTime` refines a map from timers to due ticks; over any run a timer that nothing disturbs
  before it fires does so once in exactly the tick it was set for (durations over 65536 ticks are clamped), whatever
  handlers do to other timers, and whatever its own and later handlers do to it (`FiresExactlyWhenDue`). One that its
  own handler sets again for `d` ticks fires in the ticks `due`, `due + d`, `due + 2 * d` and in no other
  (`FiresPeriodically`).
* **Receiving.** For any order, loss and repetition of packets, the bytes the consumer has taken are a gap-free,
  duplicate-free piece of the stream, the consumer is called exactly when in-order data arrives, and nothing
  waiting is lost unless all five ranges are in use. In the connection's receive path what is in order after a
  segment, what is freed and what is kept are functions of the state before, the segment and the consumer's answer;
  the acknowledgement number covers only what is in order, the FIN is taken exactly when everything before it is
  there, and the right edge of the unscaled window never moves left. With window scaling it can
  (`ScaledEdgeMovesLeft` is a run): it stays or moves right if and only if what the segment puts in order, modulo
  the unit of the scale, does not exceed what was left over before plus what it frees, and it never moves left by
  a whole unit (`OnSegment`, `EdgeRule`).
* **Sending.** Every packet, first sent or resent, carries exactly what was accepted at its sequence number, with a
  checksum that verifies, and no byte past the largest window the peer has advertised; `send` and `sendv` accept a
  prefix as long as `getSendable` says; acknowledgement packets never use the buffer of unacknowledged data; the
  resend timer runs exactly while something is unacknowledged. At the server it is a node of the wheel, linked only
  when it is unlinked, and linked exactly then (`Deliver`, `Send`, `SendFin`, `Expire`).
  One promise fails: once `sendFin` has been called, window updates are ignored. Over every run from then on the
  window is fixed, and what waits in a piece is sent if and only if the piece ends inside that window; the FIN and
  with it the whole stream if and only if it goes out at once or `|stream| + 2 <= wnd` (`FinRun`). `FinStalls` is a
  run in which even a byte inside the window is never sent.
* **Both ends.** Any selection of a sender's packets, in any order, makes a receiver hand a prefix of the accepted
  bytes to its consumer, and tell it that the stream is complete only when it is (`Replay`; packets too far away for
  32-bit comparison count as lost, so streams of any length are covered). If nothing is lost, all that was sent is
  handed over, from any point of the connection on (`WholeWire`, `ReplayInOrder`).
* **What packets say.** It is an invariant of a connection that every packet it has sent after its SYN, with data, FIN,
  resent or bare, acknowledges positions of the peer's stream that were in order, with a window inside the receive
  buffer that is open until the FIN arrives; neither the number nor the right edge ever moves left from one packet to
  the next; and unless an acknowledgement is pending, the last packet acknowledges all that is in order. Each operation
  says of the packets it adds that they carry the state of the receive path at that moment (`Said`).
* **The end of a connection.** A packet puts a connection into TIME_WAIT exactly when the peer's FIN has arrived and
  `Ending` holds, a condition on the sender before the packet: our FIN is queued, all pieces have been sent and are
  acknowledged now, and a last one still waiting does not fit the windows. The peer's stream is then complete and all
  that was sent is acknowledged; but all accepted bytes and our FIN are acknowledged if and only if no last piece was
  waiting before the packet (`Ends`, in the contract of `OnPack`). `EndsTooSoon` is a run that enters TIME_WAIT with an
  accepted byte that is never sent.

## Model

| member | source | states |
|---|---|---|
| `OrderedProbing.SlotFinds` | efvitcp/Core.h:558-562 | in an ordered table the walk for a key stops on the key itself if and only if the key is stored |
| `OrderedProbing.SlotReadsMap` | efvitcp/Core.h:558-562 | so a lookup reads the map the table stands for, both present and absent keys |
| `OrderedProbing.UniqueLayout` | efvitcp/Core.h:566-605 | two ordered tables with the same keys are equal cell by cell, whatever additions and deletions led to them |
| `OrderedProbing.EntryCount` | efvitcp/Core.h:564 | the number of occupied cells is the number of entries of the map |
| `OrderedProbing.WalkStops` | efvitcp/Core.h:235-236 | the tail cells beyond the table size guarantee that every walk ends inside the array |
| `OrderedProbing.PlaceBound` | efvitcp/Core.h:236 | a key lies fewer cells from its home than there are keys |
| `OrderedProbing.PutKeepsOrder` | efvitcp/Core.h:567-571 | one swap of an addition keeps the order, and the displaced key can resume its own walk |
| `OrderedProbing.PutKeepsMap` | efvitcp/Core.h:567-571 | one swap turns the map without the new key into the target without the displaced key |
| `OrderedProbing.ShiftBack` | efvitcp/Core.h:597-602 | moving the next key that may stand in a hole into it moves the hole and keeps the rest in order |
| `OrderedProbing.CloseHole` | efvitcp/Core.h:599-604 | when the scan meets a free cell, freeing the hole leaves an ordered table |
| `TableGrowth.LookupLands` | efvitcp/Core.h:661-672 | during doubling the walk for a moved key sees only rehashed cells and, outside the overflow tail, ends on a free cell or its own |
| `TableGrowth.CollidingStep` | efvitcp/Core.h:663-672 | when the walk stops on another key, that key is separated from its id, and this happens only at an unsafe cell |
| `TableGrowth.GrownTable` | efvitcp/Core.h:650-678 | when every old cell is rehashed, the table is ordered for the doubled size and stands for the same map |
| `TableGrowth.LostTable` | efvitcp/Core.h:650-678 | a table that lost a pairing does not stand for the map |
| `TableGrowth.SafeKeys` | efvitcp/Core.h:650-678 | whether doubling is safe depends on the set of keys alone |
| `TableGrowth.NoTailIsSafe` | efvitcp/Core.h:659-677 | doubling is safe whenever no key lies in the overflow tail |
| `IdPools.ConnTaken` | efvitcp/TcpServer.h:88 | the next id of the pool is not in use, and taking it for a new key keeps ids and map consistent |
| `IdPools.ConnReleased` | efvitcp/Core.h:587-588 | giving a connection id back keeps every id either free or in use, never both |
| `IdPools.TimeWaitTaken` | efvitcp/Core.h:622 | the same for taking a TIME_WAIT id |
| `IdPools.TimeWaitReleased` | efvitcp/Core.h:589-590 | the same for giving a TIME_WAIT id back |
| `ConnTable.Table.constructor` | efvitcp/Core.h:313-322 | the empty table of the initial size: ordered, empty map, all ids free |
| `ConnTable.Table.FindConnEntry` | efvitcp/Core.h:558-562 | returns the one cell where the key is or belongs; it holds the key if and only if the map has it, with the map's id |
| `ConnTable.Table.AddConnEntry` | efvitcp/Core.h:566-576 | adds the pair to the map; the table is right afterwards if and only if it did not grow or growing was safe |
| `ConnTable.Table.ShiftKeysBack` | efvitcp/Core.h:596-604 | removes exactly the key of the cell and restores the order |
| `ConnTable.Table.DelConnEntry` | efvitcp/Core.h:578-605 | removes exactly the key from the map and returns its id to the right pool |
| `ConnTable.Table.EnterTw` | efvitcp/Core.h:607-638 | the key keeps its place and gets a fresh TIME_WAIT id, or is removed when none is left |
| `ConnTable.Table.Admit` | efvitcp/TcpServer.h:88-89 | a new key gets a fresh id; the invariant holds afterwards if and only if the table did not grow or growing was safe |
| `ConnTable.Table.ParkTail` | efvitcp/Core.h:656-659 | the overflow tail is moved behind the doubled table, and counted |
| `ConnTable.Table.Rehash` | efvitcp/Core.h:660-675 | a rehash pass takes the faithful or the broken state of the table to the one after the pass |
| `ConnTable.Table.DoubleTable` | efvitcp/Core.h:656-678 | the doubled table stands for the same map if and only if the old layout was safe |
| `ConnTable.Table.TryExpandConnTbl` | efvitcp/Core.h:650-682 | nothing happens below half load; above it, the size doubles with the same if and only if |
| `TableClash.ClashIsUnsafe` | efvitcp/Core.h:650-678 | for every peer address, an ordered table of 64 keys in 128 cells, due to double, for which doubling is not safe |
| `TableClash.ClashKeysUnsafe` | efvitcp/Core.h:650-678 | so the set of these keys fails the condition, whatever the order they come in |
| `TableClash.LosesEntry` | efvitcp/TcpServer.h:81-94 | opening connections from these 64 ports, one lookup and one `Admit` each, ends in a table that does not stand for the connections opened |
| `ServerSpec.KeyIsInjective` | efvitcp/Core.h:167-172 | different peers have different keys |
| `ServerSpec.LinkedIffInUse` | efvitcp/Core.h:607-638 | in every consistent state a TIME_WAIT timer is linked exactly when the table has the record's id, and a connection is open exactly when it has the connection's id |
| `ServerSpec.FoundIsLive` | efvitcp/TcpServer.h:81-96 | what a lookup finds is an open connection, or a TIME_WAIT record whose timer runs, of that very key |
| `ServerSpec.ClosedOk` | efvitcp/TcpConn.h:451-465 | closing a connection, with all its timers, keeps the state consistent |
| `ServerSpec.EnteredOk` | efvitcp/Core.h:607-638 | moving a key to an unused TIME_WAIT record and starting its timer keeps the state consistent |
| `ServerSpec.EndedOk` | efvitcp/Core.h:742-747 | deleting a TIME_WAIT record together with its timer keeps the state consistent |
| `ServerSpec.AcceptedOk` | efvitcp/TcpServer.h:88-94 | opening a connection keeps the state consistent; its resend timer was not running |
| `ServerSpec.DeedsCloseOnly` | efvitcp/TcpConn.h:90-105 | whatever handlers do, every entry stays but those of the connections they close, and all TIME_WAIT timers stay |
| `ServerSpec.ConcludedStay` | efvitcp/TcpConn.h:765-768 | closing a connection or its entering TIME_WAIT touches no other key, and nothing that is in TIME_WAIT already |
| `ServerSpec.TickIsLast` | efvitcp/Core.h:742-750 | once everything due has fired, exactly the TIME_WAIT entries due in this tick are gone |
| `ServerSpec.WaitsUntilDue` | efvitcp/Core.h:607-638 | over every run, a key in TIME_WAIT whose peer sends no expected RST keeps its record and its due tick until then |
| `ServerSpec.TimeWaitLasts` | efvitcp/Core.h:607-638 | and so it is there for less than 60000 ticks after it entered, and gone in the tick 60000 after |
| `TcpServer.Server.constructor` | efvitcp/TcpServer.h:37-44 | no connection is open, no timer runs |
| `TcpServer.Server.OneCellEach` | efvitcp/Core.h:564-605 | a connection is open, and a TIME_WAIT node is linked into the wheel, exactly when one cell of the table holds its id, and only one; the two counters together count the occupied cells |
| `TcpServer.Server.OnClose` | efvitcp/TcpConn.h:451-465 | closing removes the connection's key and stops all its timers; closing twice changes nothing |
| `TcpServer.Server.EnterTimeWait` | efvitcp/TcpConn.h:451-465 | the connection's timers stop and its key moves to an unused TIME_WAIT record whose node is linked for 60000 ticks, with the expected sequence number; or the key is dropped when no record is left |
| `TcpServer.Server.EndTimeWait` | efvitcp/Core.h:513-517 | a TIME_WAIT record that is reset gives up its timer, its key and its id |
| `TcpServer.Server.Expire` | efvitcp/Core.h:744-747 | the record of a fired TIME_WAIT timer gives up its key and its id |
| `TcpServer.Server.UnlinkTimer` | efvitcp/TcpConn.h:574 | a timer an open connection has for itself is taken out of the wheel, nothing else changes |
| `TcpServer.Server.LinkTimer` | efvitcp/TcpConn.h:339 | such a timer, not linked before, is due after its duration, nothing else changes |
| `TcpServer.Server.FireNext` | efvitcp/Core.h:742-750 | each firing ends a TIME_WAIT record or calls a handler; no entry is new, and of the TIME_WAIT timers only those due now are gone |
| `TcpServer.Server.Poll` | efvitcp/Core.h:709-751 | a tick of the server: TIME_WAIT entries stay exactly until their tick, whatever handlers do meanwhile |
| `TcpServer.Server.Call` | efvitcp/TcpConn.h:90-105 | what the application does between polls closes the connections it names and leaves TIME_WAIT alone |
| `TcpServer.Server.OnWaiting` | efvitcp/Core.h:510-524 | a key in TIME_WAIT leaves it only by a RST with the expected sequence number; other packets are acknowledged exactly when their sequence number is another one or they occupy sequence space |
| `TcpServer.Server.OnHandshake` | efvitcp/TcpServer.h:97-112 | before it is established: what is answered to each kind of packet, that exactly an acknowledgement of our SYN establishes the connection, and exactly a RST with the expected number ends it |
| `TcpServer.Server.OnConn` | efvitcp/TcpServer.h:96-113 | when a packet is delivered and what the server is afterwards: handlers act, and unless they close the connection, its verdict is carried out; TIME_WAIT and other keys stay |
| `TcpServer.Server.Accept` | efvitcp/TcpServer.h:88-94 | a closed id becomes the key's connection, with the numbers of both SYNs and the resend timer set |
| `TcpServer.Server.OnPacket` | efvitcp/TcpServer.h:78-114 | a connection is opened exactly for a plain SYN of a new peer with room and permission; no other peer's entry is touched unless handlers close it; packets are delivered exactly to the established connection of their peer; TIME_WAIT ends only by the expected RST; the invariant holds after every safe growth |
| `TimerSpec.NotDueNotFired` | efvitcp/Core.h:736-751 | a timer not due in a tick does not fire in it, whatever handlers do |
| `TimerSpec.FiresAtMostOnce` | efvitcp/Core.h:742-750 | no timer fires twice in a tick |
| `TimerSpec.DueFiresOnce` | efvitcp/Core.h:742-750 | a due timer that no handler running before it touches fires exactly once, whatever its own and later handlers do to it |
| `TimerSpec.NothingOverdue` | efvitcp/Core.h:709-751 | over any run time moves forward and nothing armed is overdue |
| `TimerSpec.FiresExactlyWhenDue` | efvitcp/Core.h:684-751 | over any run a timer not disturbed before it fires stays armed until its tick, has not fired before, and fires exactly once in that tick; afterwards anything may be done to it |
| `TimerSpec.LeftAloneStops` | efvitcp/Core.h:742-751 | if it is not touched afterwards either, it fires only this once and is no longer armed |
| `TimerSpec.Restarted` | efvitcp/TcpConn.h:828-830 | a timer that its own handler sets again is armed after the tick, for the new duration |
| `TimerSpec.FiresPeriodically` | efvitcp/TcpConn.h:90-105 | over any run a timer that its own handler sets again for `d` ticks fires once in each of the ticks due, due + d, due + 2d and so on, and in no other |
| `TimerSpec.SetFiresAfterItsDuration` | efvitcp/Core.h:684-707 | a timer set for 1 to 65536 ticks and not disturbed before fires exactly that many ticks later, also if its own handler sets it again; longer durations fire at the clamped tick |
| `TimerLinks.UnlinkKeeps` | efvitcp/Core.h:192-196 | unlinking a node, linked or not, keeps all rings sound |
| `TimerLinks.InsertKeeps` | efvitcp/Core.h:703-706 | hooking an unlinked node behind a slot keeps all rings sound |
| `TimerLinks.DetachKeeps` | efvitcp/Core.h:736-741 | moving the ring of a slot to the local dump slot keeps all rings sound |
| `TimerLinks.MoveKeeps` | efvitcp/Core.h:722-733 | re-adding the front node of a slot that is being emptied keeps the rest of the walk and all other rings sound |
| `TimerWheel.LongIsRight` | efvitcp/Core.h:690-692 | a long timer's clamped expiry and slot are those of its due tick, with 32-bit wrap-around |
| `TimerWheel.CascadeLeft` | efvitcp/Core.h:720-731 | a node in the long slot that comes up has 0 to 255 ticks left, and the 32-bit difference is that number |
| `TimerWheel.Wheel.constructor` | efvitcp/Core.h:184-188 | all slots empty, nothing armed |
| `TimerWheel.Wheel.Unlink` | efvitcp/Core.h:192-196 | the links after unlinking a node |
| `TimerWheel.Wheel.AddTimer` | efvitcp/Core.h:684-707 | the links and expiry after hooking a node into its slot |
| `TimerWheel.Wheel.Arm` | efvitcp/Core.h:684-707 | starting a timer that does not run sets its due tick and nothing else |
| `TimerWheel.Wheel.Stop` | efvitcp/Core.h:192-196 | stopping a timer takes it out of the map |
| `TimerWheel.Wheel.SetTimer` | efvitcp/TcpConn.h:90-94 | the due tick of one timer changes, nothing else |
| `TimerWheel.Wheel.Cascade` | efvitcp/Core.h:721-734 | the nodes of a long slot are spread over the short slots; all due ticks stay |
| `TimerWheel.Wheel.DetachDue` | efvitcp/Core.h:736-741 | exactly the nodes due now hang on the dump slot |
| `TimerWheel.Wheel.BeginTick` | efvitcp/Core.h:720-741 | the clock moves on by one tick and no due tick changes |
| `TimerWheel.Wheel.FireNext` | efvitcp/Core.h:742-743 | what fires next was due now, and no longer runs |
| `TimerWheel.Wheel.Dispatch` | efvitcp/Core.h:742-750 | what is fired, with handlers that set and cancel timers meanwhile, is a tick of the specification |
| `TimerWheel.Wheel.PollTime` | efvitcp/Core.h:709-751 | refines the specification: nothing if the clock already shows the time, otherwise one tick |
| `Segments.Locate` | efvitcp/TcpConn.h:685-688 | finds the first range not before the new one and the first entirely behind it |
| `Segments.InsertAt` | TcpStream.h:95-99 | inserts the range at its place |
| `Segments.MergeAt` | TcpStream.h:103-111 | replaces the touched ranges by their union |
| `Segments.MergedSorted` | TcpStream.h:88-112 | the list stays in order, no two ranges touch, and the first one keeps its start |
| `Segments.MergedCovers` | TcpStream.h:88-112 | it covers exactly what it did and the new range |
| `Reassembly.MergedOk` | TcpStream.h:93-123 | buffer and stream still agree on all ranges after a packet is merged and copied |
| `Reassembly.ZeroCopyOk` | TcpStream.h:114-121 | they also do when the packet is shown directly and only its unconsumed rest is copied |
| `Reassembly.CompactedOk` | TcpStream.h:129-140 | they also do after everything moved to the front of the buffer |
| `Reassembly.CopyDown` | TcpStream.h:131-133 | the bytes arrive unchanged; that source and destination do not overlap is its precondition, which `MoveDown` meets |
| `RangeBuffer.Buffer.Begin` | TcpStream.h:61-70 | a new stream starts at the packet's position, with nothing received |
| `RangeBuffer.Buffer.SkipTo` | TcpStream.h:85-87 | the gap and the unconsumed rest are given up |
| `RangeBuffer.Buffer.Deliver` | TcpStream.h:114-127 | the consumer is shown everything from its last consumed byte on exactly when the first range grew; what it took is added to the consumed stream; no range is lost |
| `RangeBuffer.Buffer.MoveDown` | TcpStream.h:129-140 | the same bytes are held at the same stream positions, and the buffer starts at the first unconsumed one |
| `TcpStream.Clip` | TcpStream.h:75-84 | the 32-bit offsets are the true ones, and a packet is dropped exactly when it is old or does not fit |
| `TcpStream.Stream.constructor` | TcpStream.h:216-226 | no stream yet |
| `TcpStream.Stream.Rebuild` | TcpStream.h:72-141 | waiting: the consumer is called exactly for in-order data that fits and sees all of it; nothing held is lost; the packet is kept unless it does not fit or needs a sixth range |
| `TcpStream.Stream.RebuildAnyway` | TcpStream.h:72-141 | not waiting: every new packet that fits is shown, after giving up what is missing |
| `TcpStream.Stream.HandlePacket` | TcpStream.h:54-142 | both modes, and the start of a stream by a SYN or by the first packet; when waiting, nothing held is lost and the packet is kept unless it does not fit or needs a sixth range |
| `RecvSpec.AcceptableIsRfc` | efvitcp/TcpConn.h:516-524 | the acceptance test is that of section 3.10.7.4 of RFC 9293, except that an empty segment may sit exactly at the right edge |
| `RecvSpec.InWindow` | efvitcp/TcpConn.h:517-520 | the 32-bit test decides acceptability of the true offsets |
| `RecvSpec.Clip` | efvitcp/TcpConn.h:667-681 | the part of an acceptable segment that is new and in the window, and whether its FIN is in it |
| `RecvSpec.EndIsFirstGap` | efvitcp/TcpConn.h:682-711 | where the in-order data ends after a segment: everything before is there, and the position itself is not |
| `RecvSpec.AfterSegment` | efvitcp/TcpConn.h:667-763 | how much a segment puts in order and how much it frees, said of the state before, the segment and the consumer's answer |
| `TcpReceive.Receiver.constructor` | efvitcp/TcpConn.h:150-155 | nothing received |
| `TcpReceive.Receiver.OnSyn` | efvitcp/TcpConn.h:351-357 | the peer's stream starts one after its SYN |
| `TcpReceive.Receiver.AckNumber` | efvitcp/TcpConn.h:844-849 | the acknowledgement number covers the in-order bytes and a received FIN, nothing else |
| `TcpReceive.Receiver.AdvertisedWindow` | efvitcp/TcpConn.h:301-308 | the unscaled window never exceeds the free space and is never zero before the FIN |
| `TcpReceive.Receiver.AddRange` | efvitcp/TcpConn.h:682-711 | the range is merged or inserted; with all ranges in use the last is evicted for one before it, and a range behind all is refused |
| `TcpReceive.Receiver.Spill` | efvitcp/TcpConn.h:719-720 | the copy of refused data touches no received byte |
| `TcpReceive.Receiver.Take` | efvitcp/TcpConn.h:682-725 | what the consumer is shown, and what is held: everything before and the new data, up to a limit that matters only with all ranges in use |
| `TcpReceive.Receiver.Compact` | efvitcp/TcpConn.h:726-740 | the buffer moves by a full segment or not at all, and holds the same bytes |
| `TcpReceive.Receiver.TakeFin` | efvitcp/TcpConn.h:750-762 | the FIN counts as one more byte, and the rest of the stream is handed over |
| `TcpReceive.Receiver.OnSegment` | efvitcp/TcpConn.h:667-763 | unacceptable segments and everything after the FIN change nothing; in-order data is delivered exactly; what is freed and held; data is lost only by eviction; the FIN is taken exactly when all is there; the unscaled right edge never moves left, the scaled one exactly under a condition known before, and never by a whole unit; an overrun means a full buffer nobody consumes |
| `RecvSpec.EdgeMovesRight` | efvitcp/TcpConn.h:301-308 | for every shift, what a segment does to the right edge of the window, by the state before, the segment and the consumer's answer |
| `RecvWindow.FieldFits` | efvitcp/TcpConn.h:301-308 | the scaled window field fits 16 bits for every fill of the buffer if and only if the buffer is smaller than 2^30 |
| `RecvWindow.ScaledGrant` | efvitcp/TcpConn.h:301-308 | a scaled window grants the free space less its remainder |
| `RecvWindow.ScaledEdgeStays` | efvitcp/TcpConn.h:301-308 | the right edge of a scaled window stays or moves right if and only if the gain modulo the unit is at most the old remainder plus what is freed; it never moves left by a unit |
| `TcpReceive.ScaledEdgeMovesLeft` | efvitcp/TcpConn.h:301-308 | a run of the receive path: one byte received and consumed in an empty buffer of 128 KiB moves the scaled edge left by three |
| `SendSlots.CountersMayWrap` | efvitcp/TcpConn.h:862-866 | 32-bit counters have the slots, equalities and differences of unbounded ones, for a power-of-two ring |
| `SendSlots.HeadWritten` | efvitcp/TcpConn.h:862-866 | writing the header of one live buffer changes no other |
| `SendSlots.TextWritten` | efvitcp/TcpConn.h:238 | writing the payload of one live buffer changes no other |
| `SendWire.SentIsRight` | efvitcp/TcpConn.h:771-787 | a sent buffer, whenever it is sent again, carries exactly its piece of the stream, inside the window |
| `SendWire.SentFullStep` | efvitcp/TcpConn.h:649-660 | sending a full queued piece keeps the sender's invariant, the log of packets included, and the packet's checksum verifies |
| `SendWire.SentLastStep` | efvitcp/TcpConn.h:652-659 | the same for the piece being filled, with or without FIN |
| `SendWire.AppendedStep` | efvitcp/TcpConn.h:235-241 | accepting bytes keeps the invariant and the running sum, which cannot overflow |
| `SendWire.AckSentStep` | efvitcp/TcpConn.h:851-860 | an acknowledgement sent from a free buffer disturbs no piece, sent or being filled |
| `SendWire.ReleasedStep` | efvitcp/TcpConn.h:555 | releasing the oldest piece keeps the invariant |
| `SendWire.ResentStep` | efvitcp/TcpConn.h:771-787 | resending the oldest piece with a patched checksum keeps the invariant |
| `SendWire.WithinReach` | efvitcp/TcpConn.h:651 | all live positions and windows lie so close together that 32-bit comparisons are right |
| `SendWire.Seal` | efvitcp/TcpConn.h:310-323 | the checksum computed from the data sum the ring keeps is one a receiver accepts |
| `SendWire.Reseal` | efvitcp/TcpConn.h:777-785 | patched for a new acknowledgement number, window and timestamps, it still is |
| `SendRuns.FittingIsSent` | efvitcp/TcpConn.h:648-660 | if all accepted data fits the window, all of it has been sent |
| `SendRuns.PositionAfterFin` | efvitcp/TcpConn.h:545-553 | after the FIN is queued, a waiting position is sent only if its piece ends inside the window, and has been sent once nothing that fits waits if it does |
| `SendRuns.FinAfterFin` | efvitcp/TcpConn.h:545-553 | the FIN is sent, with everything before it, if and only if it went out at once or lies inside the window |
| `SendRuns.FinRun` | efvitcp/TcpConn.h:545-553 | the same over every run from `sendFin` on, in which window and stream stay as they are |
| `TcpSend.FinStalls` | efvitcp/TcpConn.h:545-553 | a run in which a byte inside the window, in one piece with the FIN that crosses the edge, is sent in no later moment |
| `TcpSend.Sender.constructor` | efvitcp/TcpConn.h:412-433 | the state right after the handshake, with our SYN, the only packet so far, unacknowledged and its timer linked |
| `TcpSend.Sender.SendNext` | efvitcp/TcpConn.h:310-331 | header with acknowledgement number, window, timestamps and a checksum that verifies; packet, next sequence number; the timer, not linked then, is linked for the timeout if and only if nothing was in flight |
| `TcpSend.Sender.SendFull` | efvitcp/TcpConn.h:657-659 | a full queued piece is sent with the sum from its header |
| `TcpSend.Sender.SendLast` | efvitcp/TcpConn.h:652-656 | the piece being filled is sent and a new one begun |
| `TcpSend.Sender.CloseOff` | efvitcp/TcpConn.h:249-251 | a full piece that cannot be sent is queued with its sum |
| `TcpSend.Sender.Fits` | efvitcp/TcpConn.h:244-245 | the 32-bit window test is right |
| `TcpSend.Sender.Append` | efvitcp/TcpConn.h:236-241 | a chunk becomes part of the stream and of the piece being filled |
| `TcpSend.Sender.Settle` | efvitcp/TcpConn.h:242-252 | after a chunk, the piece is sent or queued exactly when it is full, or last and inside the windows |
| `TcpSend.Sender.Sendable` | efvitcp/TcpConn.h:47-50 | the room left never underflows, and is zero exactly when the ring is full or the FIN is queued |
| `TcpSend.Sender.GetImmediatelySendable` | efvitcp/TcpConn.h:52-56 | what fits both the windows and the ring, if nothing is queued |
| `TcpSend.Sender.SendPartial` | efvitcp/TcpConn.h:233-255 | a prefix of exactly the available length is accepted; what fits the windows has been sent when asked for |
| `TcpSend.Sender.Send` | efvitcp/TcpConn.h:58-61 | the same, nothing after the FIN; up to `getImmediatelySendable` bytes are sent at once |
| `TcpSend.Sender.Sendv` | efvitcp/TcpConn.h:63-70 | a prefix of the concatenated buffers is accepted, as long as there was room |
| `TcpSend.Sender.SendFin` | efvitcp/TcpConn.h:72-88 | the FIN is queued once and sent at once exactly when nothing else waits; on a full ring nothing changes and the connection is to be closed (which `Connection.SendFin` does) |
| `TcpSend.Sender.SendAck` | efvitcp/TcpConn.h:341-346 | an acknowledgement goes out exactly when some free buffer is available, without touching unacknowledged data |
| `TcpSend.Sender.UpdateWindow` | efvitcp/TcpConn.h:544-553 | the edge is the largest one advertised, and frozen once the FIN is queued; also for acknowledgements of what has not been sent |
| `TcpSend.Sender.Acknowledge` | efvitcp/TcpConn.h:554-555 | exactly the pieces an acknowledgement covers are released; one of what has not been sent releases all that has |
| `TcpSend.Sender.UpdateBoth` | efvitcp/TcpConn.h:189-196 | the smaller of congestion window and advertised window |
| `TcpSend.Sender.SendUnsent` | efvitcp/TcpConn.h:648-660 | afterwards nothing waits that the windows would let through |
| `TcpSend.Sender.Resend` | efvitcp/TcpConn.h:771-787 | the oldest piece goes out again with new stamp and patched checksum, otherwise unchanged; the five-bit counter of retries |
| `TcpSend.Sender.OnAck` | efvitcp/TcpConn.h:544-664 | for every decision of the congestion control: covered pieces released, window updated, all that fits and nothing else sent, the new timeout taken if something is newly acknowledged, invariant kept |
| `TcpSend.Sender.OnResendTimer` | efvitcp/TcpConn.h:795-832 | after too many retries nothing is sent and the connection is to be closed; otherwise the oldest piece is resent, the timeout doubles in 32 bits up to the maximum, and the timer, unlinked before, is linked for it |
| `EndToEnd.Replay` | efvitcp/TcpConn.h:467-769 | any selection and order of the packets on a sender's wire, with any consumer, yields a prefix of its stream, and completion only when complete; packets out of reach count as lost |
| `EndToEnd.SenderLeavesNoGap` | efvitcp/TcpConn.h:325-331 | a sender's packets in sending order leave no gap and reach exactly as far as it has sent |
| `EndToEnd.OutIsReached` | efvitcp/TcpConn.h:325-331 | in such a list exactly the positions before its reach are carried by some packet |
| `EndToEnd.SentIsReceivable` | efvitcp/TcpConn.h:310-331 | every packet of a sender is a segment the receive path expects: at most 1460 bytes, a piece of the stream at its position, a FIN only at the end |
| `EndToEnd.WholeWire` | efvitcp/TcpConn.h:325-331 | all packets of a sender can be replayed to a receiver at any point, and bring it as far as the sender has sent |
| `EndToEnd.ReplayInOrder` | efvitcp/TcpConn.h:467-769 | packets of a sender that leave no gap are all acknowledged and handed over when the consumer keeps up, from any point of the connection on |
| `TcpConn.AllAckedIff` | efvitcp/TcpConn.h:765 | all accepted bytes and the FIN are acknowledged if and only if the ring has no piece left, complete or not |
| `TcpConn.EndsWhen` | efvitcp/TcpConn.h:554-660 | after an acknowledgement no complete piece is left in the ring if and only if a condition on the sender before holds; a last piece that waits then has waited before |
| `TcpConn.AcksAdded` | efvitcp/TcpConn.h:310-323 | packets that carry the current state of the receive path keep it true of all packets sent that they acknowledge only what was in order, with an open window inside the buffer, and that neither number nor right edge moves left |
| `TcpConn.AcksStay` | efvitcp/TcpConn.h:682-763 | that stays true when more arrives |
| `TcpConn.Connection.constructor` | efvitcp/TcpConn.h:412-433 | a connection right after the handshake |
| `TcpConn.Connection.Stamp` | efvitcp/TcpConn.h:301-313 | what a packet says: the number acknowledges exactly what is in order, the window ends at the right edge of the buffer and is not zero before the FIN |
| `TcpConn.Connection.Note` | efvitcp/TcpConn.h:844-849 | packets just sent say what holds now, and if there are any, no acknowledgement is pending any more |
| `TcpConn.Connection.SendAck` | efvitcp/TcpConn.h:341-346 | an acknowledgement of exactly what is in order goes out, exactly when there is a buffer for it |
| `TcpConn.Connection.Finish` | efvitcp/TcpConn.h:765-768 | when TIME_WAIT is entered, by the sender before the packet; what is complete then, and exactly when all accepted bytes and the FIN are acknowledged then |
| `TcpConn.Connection.OnPack` | efvitcp/TcpConn.h:516-769 | how far a packet gets; only one that gets all the way acknowledges or delivers anything; every packet sent says what was true before or is true after; a refused packet is answered, and after one that is not everything in order is acknowledged, unless that is delayed; RST and overrun close, and TIME_WAIT is entered exactly as `Finish` says |
| `TcpConn.Connection.Send` | efvitcp/TcpConn.h:58-61 | a prefix of the bytes as long as there was room is accepted, and the packets sent say what holds now |
| `TcpConn.Connection.Sendv` | efvitcp/TcpConn.h:63-70 | the same of several buffers |
| `TcpConn.Connection.SendFin` | efvitcp/TcpConn.h:72-88 | the FIN is queued, or the connection is closed, exactly when the ring is full; behind a piece that waits, the FIN waits too |
| `TcpConn.Connection.OnResendTimer` | efvitcp/TcpConn.h:800-832 | too many retries close the connection; otherwise exactly one packet goes out, the oldest piece with what holds now, and the timer is linked for the doubled timeout |
| `TcpConn.EndsTooSoon` | efvitcp/TcpConn.h:765-768 | a run that enters TIME_WAIT although an accepted byte is unacknowledged and in no later moment sent |
| `Serving.RunCalls` | efvitcp/TcpConn.h:325-339 | what a connection does to its resend timer, done on the wheel: a node is linked only when it is not, and only the last call counts |
| `Serving.Deliver` | efvitcp/TcpServer.h:96-113 | a packet delivered to an established connection: its entry stays exactly as long as the connection is open, with the node of its resend timer linked exactly while something is unacknowledged; it becomes that of a TIME_WAIT record, expecting what comes after the peer's FIN, when the connection is over |
| `Serving.Send` | efvitcp/TcpConn.h:58-61 | sending keeps the node linked exactly while something is unacknowledged, and changes nothing else at the server |
| `Serving.SendFin` | efvitcp/TcpConn.h:72-88 | so does sending the FIN, which closes the connection and removes its entry when the ring is full |
| `Serving.Expire` | efvitcp/TcpConn.h:800-832 | the node has fired: the oldest piece is sent again and the node is linked for the doubled timeout, or the connection is closed and its entry is gone |
| `Checksum.ByteOrder` | efvitcp/Core.h:89-105 | summing little-endian words instead of network-order ones multiplies the one's-complement sum by 256 |
| `Checksum.CancelsInBothOrders` | efvitcp/Core.h:89-105 | so a string cancels in one byte order if and only if it does in the other, as RFC 1071 says |
| `Checksum.CopyAndSum` | efvitcp/TcpConn.h:257-299 | copies the bytes and returns a sum congruent to theirs at the destination's alignment, small enough to be added up |
| `Checksum.AlignedAppend` | efvitcp/TcpConn.h:238 | sums of consecutive chunks add up to the sum of the whole |
| `Checksum.FoldCancels` | efvitcp/Core.h:94-98 | adding the folded checksum makes the sum zero, and the fold is zero exactly for a non-zero multiple of 65535 |
| `SegmentChecksum.SentVerifies` | efvitcp/TcpConn.h:310-323 | the checksum assembled from cached sums verifies |
| `SegmentChecksum.PatchVerifies` | efvitcp/TcpConn.h:771-785 | patching a verifying checksum for new field values gives a verifying one, as in RFC 1624 |
| `SegmentChecksum.ResendsVerify` | efvitcp/TcpConn.h:771-786 | and so after any number of resends |
| `Rto.EveryRunInRange` | efvitcp/TcpConn.h:563-573 | over every run of measurements and timeouts after the handshake the estimate stays in range: the smoothed time is never zero or negative, the timeout never below its minimum |
| `Rto.Converges` | efvitcp/TcpConn.h:563-565 | after as many equal measurements as the distance, the estimate is right to within seven milliseconds |
| `Rto.Estimator.constructor` | efvitcp/TcpConn.h:431-433 | the first estimate is the time the handshake took, at least one, with half of it as variation, as in rule 2.2 of RFC 6298; in range |
| `Rto.Estimator.OnSample` | efvitcp/TcpConn.h:563-573 | the 32-bit arithmetic gives the weighted means of rule 2.3 of RFC 6298, rounded up; the timeout covers mean and four variations; the estimate stays in the range of the measurements so far |
| `Rto.Estimator.OnExpired` | efvitcp/TcpConn.h:828-829 | the timeout doubles up to the maximum, and the estimate stays in range |

## Left out

- Headers and options: parsing, malformed lengths, the timestamp echo, window-scale negotiation; a packet enters the model as its numbers, flags and payload, and whether its timestamp is stale (PAWS) as a flag.
- Input and output: ef_vi, filters and the clock; sent packets go to a ghost log, completion of a transmission is the parameter `avail`.
- The IP header checksum, which is the same arithmetic as the TCP one.
- Congestion control formulas (Reno, CUBIC) and duplicate-acknowledgement counting: the congestion windows and the decision to resend are arbitrary inputs of `TcpSend.Sender.OnAck`.
- Delayed-acknowledgement timing: whether an acknowledgement is due at once is an input; `TcpClient.h` and the other libraries of the repository.
- RST packets, which `close` and `rspRst` send: that a reset is to be sent is reported, not put on the wire.
- Handlers of a connection that call back into it while it is processing a packet; at the server, handlers may close any connection and set any timer.
- Sequence distances: a packet that is processed lies within 2^31 bytes of the receive buffer, which is what 32-bit comparison can tell apart.
- TcpSend.Sender.UpdateWindow: acknowledgements lie between 2^29 bytes before the oldest and 2^28 bytes after the last byte sent. With windows up to 2^30 and rings up to 2^28 this is as far as the 32-bit comparison of two window edges is right; a peer acknowledges nothing that was not sent.
- TcpSend.Sender.Acknowledge: the same range of acknowledgements.
- TcpSend.Sender.OnAck: the same range of acknowledgements; congestion windows are below 2^31 - 1, which the source's stay far below; the new timeout is an input, `Rto.Estimator` computes it.
- Buffer sizes: receive buffers are even and at most 2^30 bytes, the send ring holds at most 2^28 bytes; an odd receive buffer would make the copy to its front overlap.
- TcpServer.Server.OnPacket: what an established connection decides is a parameter here; `Serving.Deliver` puts a connection in its place.
- TcpServer.Server.Accept: records keep the key of their peer, which the source computes anew from address and port.
- TcpConn.Connection.OnPack: the window in the packets it sends is the unscaled one; the acknowledgement number lies in that range if the packet gets so far that it is looked at.
- Serving.Deliver: the same range, for the same packets; the timer for delayed acknowledgements is not linked.
- TimerWheel.Wheel.PollTime: the order in which due timers fire is not specified.
- Rto.EveryRunInRange: over unbounded integers; the class `Rto.Estimator` has the 32-bit arithmetic, for measurements below 2^28 milliseconds.
