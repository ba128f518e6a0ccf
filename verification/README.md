# Verified models of eNET

Dafny models of the protocol cores of this repository and proofs about every input, every run and
every interleaving of them:

- the user-mode TCP/IP stack `tapip`: the TCP receive path, the TCP state machine with its user calls,
  the receive ring, the port table, IP fragmentation and reassembly, the routing table, the ARP cache
  and the Internet checksum;
- the blocking message queue of `raw_examples/thread_pool`, and the countdown latch of `easy_net`, as
  interleaved steps of any number of threads;
- the message body framing of the bundled HTTP parser, with the chunk writer of the bundled HTTP
  library as its counterpart;
- the growable byte buffer of `easy_net` with its scatter read and partial write.

`dafny verify dfyconfig.toml` checks the whole project.

## How it is built

Each part has a specification on values, lemmas about it, and the code in the source's own form (a
class whose methods update fields, arrays and lists in place, or a method with the source's loop)
whose contracts equate the new state with the specification.

| part | specification | theorems | code in place |
|---|---|---|---|
| TCP receive path | `TcpReceive` | `TcpReceiveProofs`, `TcpReceiveLimits`, `TcpStream`, `TcpDelivery` | `TcpReceiver`, `CircularBuffer`, `TcpSender` |
| TCP connection | `TcpConnection` | `TcpRuns`, `TcpSegments` | `TcpSocket` |
| IP fragments | `IpFragment` | `IpFragmentProofs` | `IpReassembler` |
| ARP cache | `Arp` | `ArpProofs`, `ArpAgeing` | `ArpCache` |
| routes, ports, checksum | `Route`, `Ports`, `Checksum` | same | same |
| blocking queue, latch | `MessageQueue`, `CountDownLatch` | same | `DataContainer`, `MessageQueue` |
| HTTP body | `HttpBody` | `HttpFraming`, `HttpChunked`, `HttpGrammar` | `HttpParser`, `HttpChunked` |
| byte buffer | `ByteBuffer` | same | same |

## Where the code differs from what it promises

Each of these is modelled as the code has it; a lemma says exactly when the promise holds, in terms
that can be checked before the call.

- tcp_recv_text keeps its queue in order, loses nothing and invents nothing if and only if the segment
  is `Permitted` (`RecvTextKeepsExactly`). Three kinds of segments are not:
  - text that starts inside the last queued text, a plain duplicate for instance, which is queued a
    second time; `DuplicateAborts` gives three segments after which `assert(trh->seq == tsk->rcv_nxt)`
    fails;
  - text in front of all queued texts that starts below the number tapip/tcp/tcp_reass.c:29 reads through
    the list head. On a 64-bit machine that is `snd_wnd` plus `snd_up`, which is never written; the
    model passes it in as `stray`. `StrayDrops` gives a segment that is dropped. Sequence numbers from
    2^16 on are out of its reach (`HighNumbersAreOrderable`);
  - a segment without text (a PUSH), unless it is below rcv_nxt, at rcv_nxt with an empty queue, inside
    a queued text that is not the last, or below the stray number in front of all. It is queued as a
    blank. A blank is deleted by exactly the segments that start below it, reach it and are not
    contained in one queued text (`RecvTextExact`, `BlankStays`); delivery has stopped at a blank if and
    only if every octet below some queued blank has arrived (`BlankBlocksExactly`), and then for good
    (`StuckForever`). `EmptyPushBlocks` gives three segments that lead there.
- A queued text that fits the window only in part is dropped altogether when it is delivered: draining
  loses octets if and only if the window ends in the middle of a text it takes (`DrainLosesExactly`).
- A FIN sets rcv_nxt to one past the sequence number of its segment. Everything before the FIN is then
  delivered and rcv_nxt is one past it if and only if the segment has no text and starts at rcv_nxt
  (`FinAdvancesExactly`). A FIN that overtakes text is taken at once: the missing octets are
  acknowledged and never enter the ring (`SkipsMissingExactly`, `FinOvertakes`, `OvertakenNeverArrive`).
- tcp_close frees the ring but does not restore rcv_wnd: a socket closed while its ring is full never
  takes an octet again (`FullCloseIsForever`).
- FIN_WAIT1, CLOSING and LAST_ACK are left on any new acknowledgment, as if it covered our FIN: right for
  all segments if and only if nothing but the FIN is outstanding (`FinAckedExactly`).
- The acceptance test takes more segments than the table of section 3.3 of RFC 793: those that reach
  over both edges of the window (`SeqCheckExactly`).
- The TCP and UDP checksum loses the carry out of 32 bits when it adds the addresses: it is the standard
  checksum if and only if the whole sum stays below 2^32 (`PseudoHeaderExactly`); two hosts of one
  network suffice to lose it (`LostCarryExample`). Stack against stack it still verifies
  (`SetThenVerify`). The UDP replacement of 0 by 0xffff fails for exactly one sum
  (`UdpZeroVerifiesExactly`, `UdpZeroExample`).
- An echo reply of an otherwise all-zero request does not verify (`EchoReplyExactly`).
- ip_send_frag cuts every packet with offsets from 0, and tapip/ip/ip_frag.c:256 tests the host constant
  for MF on the field in network order, which on a little-endian host is bit 5 of the offset. The pieces
  are right in offsets and flags if and only if the packet is no fragment at all (`RefragmentExactly`);
  a first fragment loses MF (`FirstFragmentLosesMf`).
- When the CR after chunk data is missing, octets of that chunk are called back if the call ended
  between them and the missing CR, and lost otherwise (`CutMattersExactly`).
- The table of hexadecimal digits has only 128 entries: an octet is read right if and only if it is below
  128, and every other one is taken for the digit 0 (`UnhexRightExactly`); a single such octet ends a
  chunked message (`HighOctetEndsMessage`).
- A call with no data means the end of input, so cutting the input is invisible if and only if empty
  calls come after the end of the message or an error (`SplitIndependent`).
- An empty write ends the loop of the chunk writer with success, and the message never completes unless
  done was called (`ReadWritten`, `EmptyWriteEndsEarly`).
- The index setters of the byte buffer take an `int`: an index moves past the octets if and only if
  there are fewer than 2^31 (`AdvanceExactly`). A retrieval is not compared with what is readable: the
  order of the indices survives if and only if it asks for no more (`RetriveAsString`).

## Model

| member | source | states |
|---|---|---|
| CircularBuffer.TailRightFits | tapip/include/cbuf.h:34-37 | the piece taken at the read point is non-empty and inside the array, so the read loop terminates |
| CircularBuffer.HeadRightFits | tapip/include/cbuf.h:29-32 | the piece written at the write point is non-empty and inside the array, so the write loop terminates |
| CircularBuffer.PatchAppends | tapip/include/cbuf.h:22-27 | writing at the write point modulo the size appends to the stored octets |
| CircularBuffer.RunAtTail | tapip/include/cbuf.h:22-27 | the stored octets begin with the run at the read point modulo the size |
| CircularBuffer.CBuf.Write | tapip/lib/cbuf.c:27-43 | appends the first min(free, n) octets to the FIFO; the indices stay in range |
| CircularBuffer.CBuf.Read | tapip/lib/cbuf.c:45-66 | removes min(used, n) octets from the front, in order; the indices stay in range |
| TcpReceive.WriteBuf | tapip/tcp/tcp_text.c:16-33 | rcv_nxt + rcv_wnd is conserved, the window stays the free space of the ring, the ring gains the front of the data, all of it unless the window closes |
| TcpReceive.ReadBuf | tapip/tcp/tcp_sock.c:345-350 | what is read plus what remains is what was there, and the window stays the free space; as many octets as asked for if there are so many; PUSH is cleared when the ring is empty |
| TcpReceiveProofs.PlaceOrdered | tapip/tcp/tcp_reass.c:27-57 | trimming, deletion and insertion keep the queue ordered and disjoint |
| TcpReceiveProofs.PlaceCovers | tapip/tcp/tcp_reass.c:27-57 | the queue afterwards holds exactly the octets it held plus those of the segment, above the stray number if the list head is read |
| TcpReceiveProofs.PlaceBlank | tapip/tcp/tcp_reass.c:27-57 | exactly which texts without octets are deleted and queued |
| TcpReceiveProofs.VanishesExactly | tapip/tcp/tcp_reass.c:27-33 | the search trims a segment to nothing if and only if it lies below the stray number in front of all texts, or in a text that is not the last |
| TcpReceiveProofs.PlaceSlices | tapip/tcp/tcp_reass.c:27-57 | every queued text remains a slice of the peer's stream |
| TcpReceiveProofs.DrainStreams | tapip/tcp/tcp_reass.c:59-71 | draining never fails its assertion and keeps in-order delivery, even when the ring fills up |
| TcpReceiveProofs.DrainExact | tapip/tcp/tcp_reass.c:59-71 | inside the window draining loses no octet, stops only at a gap or a blank and conserves rcv_nxt + rcv_wnd |
| TcpReceiveProofs.RecvTextStreams | tapip/tcp/tcp_text.c:41-70 | each slice that leaves the queue ordered, with text or without, keeps: octets read plus ring are the stream up to rcv_nxt; no assertion fails |
| TcpReceiveProofs.ReassExact | tapip/tcp/tcp_reass.c:20-78 | delivered plus queued octets afterwards are the old ones united with the segment above the stray number, and blanks come and go as stated |
| TcpReceiveProofs.RecvTextExact | tapip/tcp/tcp_text.c:41-70 | the same for tcp_recv_text, with queue order, window confinement and delivery up to a gap or a blank |
| TcpReceiveProofs.ReassKeepsExactly | tapip/tcp/tcp_reass.c:20-78 | for every segment inside the window, with text or without: order kept, nothing lost, nothing invented if and only if the segment is sound |
| TcpReceiveProofs.RecvTextKeepsExactly | tapip/tcp/tcp_text.c:41-70 | the same if and only if for tcp_recv_text, with its trim below rcv_nxt, closed window and direct write |
| TcpReceiveProofs.BlankBlocksExactly | tapip/tcp/tcp_reass.c:59-71 | delivery has stopped at a blank if and only if every octet below some queued blank has arrived |
| TcpReceiveLimits.InOrderTakesWhatFits | tapip/tcp/tcp_text.c:16-70 | in-order text on an empty queue is taken exactly up to the right edge of the window, wherever it ends |
| TcpReceiveLimits.DrainHalts | tapip/tcp/tcp_reass.c:59-71 | draining ends only with the window closed, at a gap, or at a blank |
| TcpReceiveLimits.ReassHalts | tapip/tcp/tcp_reass.c:20-78 | so does tcp_segment_reass, wherever the segment ends |
| TcpReceiveLimits.DrainDelivers | tapip/tcp/tcp_reass.c:59-71 | what continues the stream is delivered as far as the window allows, and exactly the texts that start later stay queued |
| TcpReceiveLimits.DrainLosesExactly | tapip/tcp/tcp_reass.c:59-71 | octets are lost if and only if the window ends in the middle of a text that is taken |
| TcpReceiveLimits.AbsorbIs | tapip/tcp/tcp_reass.c:35-57 | the deletion loop removes exactly the texts that the segment covers to their end |
| TcpReceiveLimits.PlaceIs | tapip/tcp/tcp_reass.c:27-57 | the queue afterwards, text by text, as filters of the queue before |
| TcpReceiveProofs.PushMeansDelivered | tapip/tcp/tcp_text.c:41-70 | a segment with PUSH releases the reader if and only if it delivered something; rcv_nxt never moves back |
| TcpReceiveProofs.TextIsAcknowledged | tapip/tcp/tcp_text.c:41-70 | text beyond rcv_nxt is acknowledged while the window is open, at once exactly when it or something queued is out of order |
| TcpStream.InOrderDelivery | tapip/tcp/tcp_text.c:16-70 | in every run of arrivals and reads that leaves the queue ordered, octets read plus ring are exactly the stream up to rcv_nxt |
| TcpStream.NextIsFirstGap | tapip/tcp/tcp_reass.c:20-78 | within the window, rcv_nxt is the first octet that has not arrived and the queue is exactly what arrived above it |
| TcpStream.BlankStays | tapip/tcp/tcp_reass.c:27-71 | in every run a queued blank stays and rcv_nxt never passes it, until a segment that starts below it reaches it |
| TcpStream.EveryRunOrderly | tapip/tcp/tcp_reass.c:20-78 | in every run that leaves the queue ordered, everything up to a gap or a blank is delivered and no assertion fails |
| TcpStream.StuckForever | tapip/tcp/tcp_reass.c:59-71 | once delivery has stopped at a blank, rcv_nxt never advances in any run |
| TcpSender.CutPartitions | tapip/tcp/tcp_text.c:72-113 | the segments cut by the sender are ordered, disjoint, non-empty slices that cover the buffer, all but the last of exactly the segment size |
| TcpSender.SendText | tapip/tcp/tcp_text.c:90-113 | the sending loop cuts min(len, snd_wnd) octets as specified, sets PSH on the last segment only, moves snd_nxt and snd_wnd by that number and returns it, or -1 for 0 |
| TcpDelivery.EveryOrderDelivers | tapip/tcp/tcp_text.c:41-113 | cut by the sender, delivered in any order and any number of times with reads in between: the user gets the buffer back and the queue is empty, if no piece is repeated while it is the last queued text |
| TcpDelivery.GentleIsFine | tapip/tcp/tcp_reass.c:27-33 | text that does not start inside the last queued text is all the queue asks of a peer within the window |
| TcpDelivery.OnceIsGentle | tapip/tcp/tcp_reass.c:27-33 | runs in which no octet arrives twice meet that, in any order |
| TcpDelivery.DuplicateAborts | tapip/tcp/tcp_reass.c:59-64 | a duplicate of an early segment followed by the missing octet fails the assertion |
| TcpDelivery.StrayDrops | tapip/tcp/tcp_reass.c:27-33 | a segment that is neither delivered nor queued because of the number read through the list head |
| TcpDelivery.EmptyPushBlocks | tapip/tcp/tcp_text.c:35-70 | a PUSH without text behind a queued text stops delivery when the gap before it closes |
| TcpReceiver.SearchStep | tapip/tcp/tcp_reass.c:27-33 | one step of the search moves a queued text behind the segment |
| TcpReceiver.Receiver.WriteBuf | tapip/tcp/tcp_text.c:16-33 | the ring, rcv_nxt and rcv_wnd change in place as specified; the ring is allocated on first use |
| TcpReceiver.Receiver.Drain | tapip/tcp/tcp_reass.c:59-71 | the draining loop computes the specified drain, or stops at the failing assertion |
| TcpReceiver.Receiver.FindPlace | tapip/tcp/tcp_reass.c:27-33 | the search loop finds the first text above the segment and the end of the one before |
| TcpReceiver.Receiver.AbsorbAt | tapip/tcp/tcp_reass.c:35-57 | the deletion loop, tail trim and insertion compute the specified queue |
| TcpReceiver.Receiver.SegmentReass | tapip/tcp/tcp_reass.c:20-78 | refines the specified reassembly on the list in place |
| TcpReceiver.Receiver.RecvText | tapip/tcp/tcp_text.c:41-70 | refines the specified tcp_recv_text on socket, list and ring in place |
| TcpReceiver.Receiver.RecvBuf | tapip/tcp/tcp_sock.c:345-366 | one turn of the read loop hands over the front of the ring and reopens the window |
| TcpConnection.Close | tapip/tcp/tcp_sock.c:256-287 | ring and queue are empty afterwards and the window is what was free in the ring |
| TcpConnection.Connect | tapip/tcp/tcp_sock.c:153-167 | only a closed socket opens, with its new numbers |
| TcpConnection.ConnectReturn | tapip/tcp/tcp_sock.c:178-188 | established if and only if it was and the wait was not interrupted, else closed |
| TcpConnection.Send | tapip/tcp/tcp_sock.c:289-315 | everything is sent unless the send window closes, in the two states that send |
| TcpConnection.TimeWaitOver | tapip/tcp/tcp_timer.c:7-27 | closes TIME_WAIT and nothing else |
| TcpRuns.FullCloseIsForever | tapip/tcp/tcp_sock.c:256-287 | a socket closed while its ring is full never takes an octet again, in any run |
| TcpRuns.StepKeepsInv | tapip/tcp/tcp_state.c:278-566 | every segment, user call and timer keeps the connection invariant |
| TcpRuns.EveryRunKeepsInv | tapip/tcp/tcp_state.c:371-456 | in every run iss <= una <= nxt, nxt = iss + 1 + octets sent + FINs sent, at most one FIN, and the state tells which FINs were exchanged |
| TcpRuns.OpeningEstablishesInv | tapip/tcp/tcp_sock.c:153-188 | active and passive opening establish the invariant |
| TcpRuns.UnaNeverDecreases | tapip/tcp/tcp_state.c:371-456 | snd_una never decreases within a connection |
| TcpSegments.UnaExactly | tapip/tcp/tcp_state.c:371-430 | in every state snd_una becomes the acknowledgment number that counts, and changes for no other segment |
| TcpSegments.UnaIsLargestAck | tapip/tcp/tcp_state.c:371-430 | in every run snd_una is the largest acknowledgment number taken |
| TcpSegments.OutsideOnlyAcks | tapip/tcp/tcp_state.c:290-297 | a segment outside the window only provokes an acknowledgment, and not even that with RST |
| TcpSegments.ResetCloses | tapip/tcp/tcp_state.c:298-332 | an acceptable RST closes and changes nothing else |
| TcpSegments.SynCloses | tapip/tcp/tcp_state.c:336-356 | an acceptable SYN closes and delivers or acknowledges nothing |
| TcpSegments.NoAckNoEffect | tapip/tcp/tcp_state.c:357-370 | an acceptable segment without ACK has no effect |
| TcpSegments.RefusedAckNoEffect | tapip/tcp/tcp_state.c:371-435 | neither has an acknowledgment of something never sent, or a third ACK that is refused |
| TcpSegments.WindowExactly | tapip/tcp/tcp_state.c:261-275 | exactly which segments set the send window, and with what |
| TcpSegments.TextExactly | tapip/tcp/tcp_state.c:501-560 | in every state that reads, text goes to tcp_recv_text, and nothing else changes ring and queue; a FIN is acknowledged and releases the reader |
| TcpSegments.StateExactly | tapip/tcp/tcp_state.c:371-560 | the next state for every state, new acknowledgment and FIN |
| TcpSegments.SynSentExactly | tapip/tcp/tcp_state.c:145-226 | SYN-SENT as section 3.9 of RFC 793 has it: when it closes, establishes, or waits for the peer |
| TcpRuns.WindowNeverOlder | tapip/tcp/tcp_state.c:261-275 | once synchronized, the send window is never taken from an older segment |
| TcpRuns.ArriveWindow | tapip/tcp/tcp_state.c:261-275 | a changed send window is that of the segment, recorded with its sequence and acknowledgment numbers |
| TcpRuns.SeqCheckExactly | tapip/tcp/tcp_state.c:241-259 | acceptance is the table of RFC 793 or reaching over both edges of the window |
| TcpRuns.FollowsDiagram | tapip/tcp/tcp_state.c:278-566 | every step follows the arrows of the state diagram of RFC 793, a segment at most two |
| TcpRuns.FinAckedExactly | tapip/tcp/tcp_state.c:413-430 | over all segments that can arrive, leaving FIN_WAIT1, CLOSING or LAST_ACK means that the FIN was acknowledged if and only if nothing else was outstanding |
| TcpRuns.FinAdvancesExactly | tapip/tcp/tcp_state.c:519-560 | everything before the peer's FIN is delivered and rcv_nxt is one past it if and only if the FIN came without text and at rcv_nxt |
| TcpRuns.SkipsMissingExactly | tapip/tcp/tcp_state.c:519-560 | a FIN acknowledges only octets that have arrived if and only if it overtakes nothing |
| TcpRuns.FinOvertakes | tapip/tcp/tcp_state.c:519-560 | a FIN ahead of a gap is taken at once and rcv_nxt passes over the gap |
| TcpRuns.OvertakenNeverArrive | tapip/tcp/tcp_state.c:501-560 | in every run after such a FIN the missing octets never enter the ring |
| TcpRuns.NothingAfterFin | tapip/tcp/tcp_state.c:501-560 | after the peer's FIN no octet enters the ring, in every run; what is there leaves in order |
| TcpRuns.HandshakeStartsStream | tapip/tcp/tcp_state.c:186-201 | both handshakes record irs and start the stream right after the peer's SYN with nothing delivered |
| TcpRuns.HighNumbersAreOrderable | tapip/tcp/tcp_reass.c:27-33 | from 2^16 on the number read through the list head never disturbs the order |
| TcpRuns.EveryRunDeliversInOrder | tapip/tcp/tcp_state.c:501-560 | through all states and user calls no assertion fails and what left the ring plus what is in it is a prefix of the stream, ending at rcv_nxt while text is accepted |
| TcpSocket.TcpSock.Child | tapip/tcp/tcp_state.c:106-113 | the child of a SYN starts in SYN_RECV with the specified numbers |
| TcpSocket.TcpSock.UpdateWindow | tapip/tcp/tcp_state.c:269-275 | updates the send window in place as specified |
| TcpSocket.TcpSock.SynSent | tapip/tcp/tcp_state.c:145-226 | refines the specified SYN-SENT processing, error paths included |
| TcpSocket.TcpSock.CheckAck | tapip/tcp/tcp_state.c:371-471 | refines the specified ACK processing and says when the segment is dropped |
| TcpSocket.TcpSock.CheckText | tapip/tcp/tcp_state.c:501-516 | refines the specified text processing |
| TcpSocket.TcpSock.CheckFin | tapip/tcp/tcp_state.c:519-560 | refines the specified FIN processing |
| TcpSocket.TcpSock.Process | tapip/tcp/tcp_state.c:278-566 | refines the specified segment-arrives procedure |
| TcpSocket.TcpSock.Connect | tapip/tcp/tcp_sock.c:153-167 | opens from CLOSED only, with una = iss and nxt = iss + 1 |
| TcpSocket.TcpSock.Close | tapip/tcp/tcp_sock.c:256-287 | sends a FIN from ESTABLISHED and CLOSE_WAIT only, frees ring and queue |
| TcpSocket.TcpSock.SendBuf | tapip/tcp/tcp_sock.c:289-315 | sends min(len, snd_wnd) octets as the cut segments from ESTABLISHED and CLOSE_WAIT, PSH on the last, else returns -1 |
| TcpSocket.TcpSock.ConnectReturn | tapip/tcp/tcp_sock.c:178-188 | after the wait the socket is established or closed |
| TcpSocket.TcpSock.RecvBuf | tapip/tcp/tcp_sock.c:317-350 | reads from the front of the ring in the states that allow it and nothing in the others |
| TcpSocket.TcpSock.TimeWaitOver | tapip/tcp/tcp_timer.c:7-27 | the expiry closes a socket in TIME_WAIT only |
| TcpSocket.TcpSock.Handle | tapip/tcp/tcp_state.c:278-566 | whatever peer, user or clock does, the object does the step of the connection model |
| TcpSocket.TcpSock.Drive | tapip/tcp/tcp_state.c:278-566 | so every run of the object is a run of the model, for which the theorems hold |
| Ports.SomePortUnused | tapip/tcp/tcp_sock.c:62-78 | fewer bound ports than the range has leave one of the range unused, wherever they lie |
| Ports.PortTable.GetPort | tapip/tcp/tcp_sock.c:62-78 | the search ends at the first unused port around from defport; 0 exactly when bfree is used up |
| Ports.PortTable.SetPort | tapip/tcp/tcp_sock.c:85-97 | binds an unused port or fails and changes nothing; bfree plus bound ports is constant |
| Ports.PortTable.Unbind | tapip/tcp/tcp_sock.c:99-109 | gives the port and the count back once |
| IpFragment.MaxLen | tapip/ip/ip_frag.c:233-242 | the largest multiple of 8 that fits behind the header |
| IpFragment.SendFrag | tapip/ip/ip_frag.c:207-260 | the loop produces the specified fragments of any packet, with the bit the code carries over |
| IpFragmentProofs.SplitPlaces | tapip/ip/ip_frag.c:233-260 | where each piece of any packet starts and which flag it has |
| IpFragmentProofs.CarriedIsBit5 | tapip/ip/ip_frag.c:253-258 | the bit carried over to the last piece is bit 5 of the offset field |
| IpFragmentProofs.RefragmentExactly | tapip/ip/ip_frag.c:233-260 | the pieces of a packet are right in offsets and flags if and only if it is no fragment |
| IpFragmentProofs.FirstFragmentLosesMf | tapip/ip/ip_frag.c:253-258 | a first fragment that is cut again ends without MF |
| IpFragmentProofs.SplitPartitions | tapip/ip/ip_frag.c:207-260 | fragments start at multiples of 8, are adjacent, cover the payload, fit, and only the last lacks MF |
| IpFragmentProofs.TotalOfSelect | tapip/ip/ip_frag.c:10-13 | the octet count equals the full size if and only if every fragment is there |
| IpFragmentProofs.InsertCollects | tapip/ip/ip_frag.c:93-167 | in whatever order fragments come, one that is there is refused and a missing one is linked in place; complete exactly at the last |
| IpFragmentProofs.SearchMeans | tapip/ip/ip_frag.c:120-137 | for any list: a duplicate, or the place behind the last packet that starts lower |
| IpFragmentProofs.InsertExactly | tapip/ip/ip_frag.c:93-167 | for every record and packet: when it is taken, what the counters and flags become, and when the record is complete |
| IpFragmentProofs.JoinRefusesExactly | tapip/ip/ip_frag.c:53-66 | nothing is put together if and only if it would exceed 65535 octets |
| IpFragmentProofs.JoinGivesDatagram | tapip/ip/ip_frag.c:53-90 | a complete record joins to the original header and payload |
| IpFragmentProofs.ReassembleFinds | tapip/ip/ip_frag.c:169-205 | a packet touches the record of its own datagram only |
| IpFragmentProofs.ReassemblyIsIdeal | tapip/ip/ip_frag.c:93-205 | in any order, with repetitions and foreign fragments: nothing until the last missing fragment, then the datagram |
| IpFragmentProofs.FragmentThenReassemble | tapip/ip/ip_frag.c:53-260 | fragmenting and reassembling is the identity, and the fragments fit the MTU |
| IpReassembler.SearchBackward | tapip/ip/ip_frag.c:120-137 | the backward walk computes the specified place or finds the duplicate |
| IpReassembler.InsertFrag | tapip/ip/ip_frag.c:93-167 | refines the specified insertion, error paths included |
| IpReassembler.JoinFrag | tapip/ip/ip_frag.c:53-90 | the copying loop gives one header and the payloads in list order; nothing above 65535 octets |
| IpReassembler.Reassembler.Receive | tapip/ip/ip_frag.c:179-205 | the list of datagrams changes as specified |
| Route.HitIsPrefixMatch | tapip/ip/route.c:11-20 | comparing under the mask is comparing the first bits |
| Route.MaskOrder | tapip/ip/route.c:36-52 | read little-endian, network-order masks are ordered by prefix length |
| Route.FirstMatchIsLongestMatch | tapip/ip/route.c:11-52 | for every sequence of additions, first match is longest prefix match, the newest among equals |
| Route.LongestMatchMeans | tapip/ip/route.c:11-20 | the result matches and nothing that matches is longer; none exactly when nothing matches |
| Route.RouteTable.Add | tapip/ip/route.c:36-52 | inserts in front of the first entry whose mask is not larger |
| Route.RouteTable.Find | tapip/ip/route.c:11-20 | the scan returns the first match |
| Arp.Lookup | tapip/arp/arp_cache.c:128-143 | a live entry for the address, or none exactly when there is none |
| Arp.FreeFrom | tapip/arp/arp_cache.c:80-111 | only a free entry is handed out |
| ArpProofs.SubmitLedger | tapip/ip/ip_out.c:26-45 | a submitted packet is sent, queued behind all others for its next hop, or freed |
| ArpProofs.MessageLedger | tapip/arp/arp.c:71-86 | a message sends the waiting packets of its address once, in order, and nothing else |
| ArpProofs.TickLedger | tapip/arp/arp_cache.c:153-176 | what a tick frees plus what still waits is what waited |
| ArpProofs.EveryPacketOnce | tapip/arp/arp_cache.c:59-176 | in every run: one live entry per address, packets only in waiting entries, and per next hop the packets sent or freed followed by those waiting are those submitted, in order |
| ArpProofs.FreshCacheIsClean | tapip/arp/arp_cache.c:178-185 | the initial cache satisfies the invariant and the account |
| ArpAgeing.FreeFromComplete | tapip/arp/arp_cache.c:80-111 | the round-robin search finds a free entry if and only if there is one |
| ArpAgeing.AtOnceExactly | tapip/ip/ip_out.c:26-45 | a packet is sent at once if and only if its next hop is resolved, freed if and only if it is unknown and the cache full, queued otherwise |
| ArpAgeing.FreeFromFirst | tapip/arp/arp_cache.c:80-111 | the search takes the first free entry in turn |
| ArpAgeing.AsksForUnknown | tapip/ip/ip_out.c:26-38 | a packet for an unknown next hop starts a new entry with four retries, touches no other, and the next search starts behind it |
| ArpAgeing.LearnsSender | tapip/arp/arp.c:71-86 | after a message the sender is known, resolved with its address and a full lifetime, if and only if it was known or asked and the cache was not full |
| ArpAgeing.RetriesInEveryRun | tapip/arp/arp_cache.c:153-176 | in every run without an answer, with ticks of a second or more, the entry has asked again once per tick and holds its packets and all submitted for it since |
| ArpAgeing.FreedOnTheFifthTick | tapip/arp/arp_cache.c:153-176 | after four such ticks the fifth frees the entry and, of the packets for its address, exactly those, in order |
| ArpAgeing.AgesInEveryRun | tapip/arp/arp_cache.c:153-176 | in every run without a message from the address a resolved entry stays, its lifetime shortened by the time gone by |
| ArpAgeing.ExpiresExactly | tapip/arp/arp_cache.c:153-176 | a tick frees it if and only if it uses the lifetime up |
| ArpCache.Cache.Find | tapip/arp/arp_cache.c:128-143 | the scan finds the specified entry |
| ArpCache.Cache.Alloc | tapip/arp/arp_cache.c:80-111 | the round-robin search finds the specified free entry or reports a full cache |
| ArpCache.Cache.Send | tapip/ip/ip_out.c:26-45 | refines the specified submission on the array |
| ArpCache.Cache.QueueSend | tapip/arp/arp_cache.c:59-68 | hands over every waiting packet in order and empties the list |
| ArpCache.Cache.QueueDrop | tapip/arp/arp_cache.c:70-78 | frees every waiting packet in order and empties the list |
| ArpCache.Cache.Receive | tapip/arp/arp.c:71-86 | refines the specified message step |
| ArpCache.Cache.Elapse | tapip/arp/arp_cache.c:153-176 | refines the specified tick over the whole array |
| Checksum.Sum | tapip/lib/checksum.c:7-16 | the loop adds the 16-bit words, odd last octet included, modulo 2^32 |
| Checksum.FoldIsOnes | tapip/lib/checksum.c:18-24 | two folds give the representative modulo 65535, for every 32-bit sum |
| Checksum.ChecksumIsRfc1071 | tapip/lib/checksum.c:18-24 | the checksum is the complement of the one's complement sum when the sum fits 32 bits |
| Checksum.SetThenVerify | tapip/lib/checksum.c:68-77 | set, then verify gives 0 for any contents, odd or even length, any pseudo header |
| Checksum.SetIpChecksum | tapip/lib/checksum.c:74-77 | afterwards the header verifies and no other octet has changed |
| Checksum.UdpZeroVerifiesExactly | tapip/lib/checksum.c:55-66 | 0xffff in place of a computed 0 verifies if and only if the sum is not 2^32 - 1 |
| Checksum.UdpZeroExample | tapip/lib/checksum.c:55-66 | a datagram for which it does not verify |
| Checksum.PseudoSumIsStandard | tapip/lib/checksum.c:34-43 | the reference is the one's complement sum over pseudo header and data |
| Checksum.PseudoHeaderExactly | tapip/lib/checksum.c:34-43 | the checksum is the standard one if and only if no carry leaves 32 bits |
| Checksum.LostCarryExample | tapip/lib/checksum.c:34-43 | 192.168.0.200 and 192.168.0.100 get a checksum that is not the standard one |
| Checksum.EchoReplyExactly | tapip/ip/icmp.c:139-149 | a verifying request becomes a verifying reply if and only if some octet besides type, code and checksum is not zero |
| Checksum.EchoRequestToReply | tapip/ip/icmp.c:127-157 | the packet changes in type and checksum only, replies to code 0 only, and verifies |
| DataContainer.Container.PushBack | raw_examples/thread_pool/data_container.h:38-47 | appends; when full it drops the oldest item and counts it |
| DataContainer.Container.PopFront | raw_examples/thread_pool/data_container.h:50-72 | takes the oldest item |
| DataContainer.Container.Measure | raw_examples/thread_pool/data_container.h:58-83 | size, empty and full agree with the items |
| DataContainer.AroundOverrun | raw_examples/thread_pool/data_container.h:38-47 | writing the last free slot and moving the head drops exactly the oldest item |
| MessageQueue.StepKeepsInv | raw_examples/thread_pool/msg_qunue.h:22-74 | every step of every thread keeps: parked consumers imply items <= notifications due + awake consumers, and the same for producers and free slots |
| MessageQueue.EveryRunKeepsInv | raw_examples/thread_pool/msg_qunue.h:22-74 | the same in every interleaving |
| MessageQueue.NoLostWakeup | raw_examples/thread_pool/msg_qunue.h:22-74 | at rest a parked consumer means an empty queue and a parked producer a full one; items that left plus items queued are those pushed, in order |
| MessageQueue.BlockingNeverOverruns | raw_examples/thread_pool/msg_qunue.h:22-34 | with blocking enqueue only, nothing is ever overrun |
| MessageQueue.EveryoneMoves | raw_examples/thread_pool/msg_qunue.h:22-74 | whoever is neither idle nor parked can move, and whoever is parked can be woken or time out |
| MessageQueue.TimeoutDecides | raw_examples/thread_pool/msg_qunue.h:46-60 | a consumer whose time is up takes an item if there is one and gives up if not |
| MessageQueue.RunPushes | raw_examples/thread_pool/msg_qunue.h:22-43 | a producer with room, or one that does not wait, pushes; a full queue loses its oldest item |
| MessageQueue.RunPops | raw_examples/thread_pool/msg_qunue.h:46-74 | a consumer that finds an item takes the oldest, also after its timeout |
| MessageQueue.RunStays | raw_examples/thread_pool/msg_qunue.h:22-74 | otherwise it parks, or gives up after its timeout |
| MessageQueue.CriticalSection | raw_examples/thread_pool/msg_qunue.h:22-74 | the code under the lock does to ring and thread what the step says, and hands out the item taken |
| CountDownLatch.StepKeepsInv | easy_net/base/countdown_latch.h:27-51 | every step keeps the latch invariant and the count never rises |
| CountDownLatch.NoLostWakeup | easy_net/base/countdown_latch.h:27-51 | in every interleaving count >= 0, Wait returns only at 0, there is a notifier exactly from reaching 0 until notify_all, and only one; whoever is parked at 0 is still to be notified |
| CountDownLatch.NeverStuckAtZero | easy_net/base/countdown_latch.h:27-51 | while somebody is parked at 0 the notifier or the lock holder can move |
| CountDownLatch.NotifiesOnce | easy_net/base/countdown_latch.h:38-51 | notify_all is called at most once in a run |
| CountDownLatch.EveryCallCounts | easy_net/base/countdown_latch.h:38-51 | in every interleaving, while the counter is positive, it has been lowered once for every call not still under way, however often exchanges failed |
| CountDownLatch.EnoughCallsReachZero | easy_net/base/countdown_latch.h:38-51 | once as many calls as the initial count have gone through, the counter is 0 |
| CountDownLatch.EveryoneMoves | easy_net/base/countdown_latch.h:27-51 | only the mutex holds a thread up, and only one that needs it |
| CountDownLatch.WaitEndsAtZero | easy_net/base/countdown_latch.h:27-35 | at 0 every test of Wait ends it |
| HttpBody.Step | raw_examples/http_parser/http_parser.c:1944-2116 | the parser invariant holds after every octet, so the assertions of the body states hold and the length is never the sentinel |
| HttpBody.FeedConcat | raw_examples/http_parser/http_parser.c:1944-2116 | reading a and then b is reading a + b |
| HttpParser.HttpParser.Frame | raw_examples/http_parser/http_parser.c:1996-2116 | an octet of framing changes the parser and calls back as specified |
| HttpParser.HttpParser.TakeRun | raw_examples/http_parser/http_parser.c:1944-1994 | taking a whole run of body is taking its octets one by one |
| HttpParser.HttpParser.Execute | raw_examples/http_parser/http_parser.c:1944-2147 | runs, mark and callbacks deliver what the octets say; an empty call is the end of input |
| HttpParser.FrameFails | raw_examples/http_parser/http_parser.c:2101-2107 | only a missing CR loses marked octets |
| HttpFraming.SplitIndependent | raw_examples/http_parser/http_parser.c:2125-2147 | for every input and every splitting into calls, empty ones included: the same parser and callbacks as in one call if and only if empty calls find the parser settled; a missing CR is the only other exception |
| HttpFraming.CutMattersExactly | raw_examples/http_parser/http_parser.c:2101-2107 | one cut changes what is delivered if and only if the first call left the parser in a chunk behind octets of it and the octet due next behind the chunk is not CR |
| HttpFraming.DoomedChunkExample | raw_examples/http_parser/http_parser.c:2101-2107 | an input where it does |
| HttpFraming.LengthDelimits | raw_examples/http_parser/http_parser.c:1944-1977 | with Content-Length n the next n octets are the body, then one message_complete |
| HttpFraming.LengthDelimitsEverySplitting | raw_examples/http_parser/http_parser.c:1944-1977 | the same for a splitting into calls if and only if no empty call comes too early |
| HttpFraming.LengthIsExact | raw_examples/http_parser/http_parser.c:1542-1570 | the decimal accumulator is exact or rejects, never wraps, never gives the sentinel, and rejects exactly above the limit |
| HttpChunked.FromIToHex | raw_examples/cpp-httplib/httplib.h:1943-1951 | the digits of the number, most significant first |
| HttpChunked.Provide | raw_examples/cpp-httplib/httplib.h:3669-3721 | the sink closures emit a chunk per non-empty write and the final marker, and keep data_available |
| HttpChunked.WriteContentChunked | raw_examples/cpp-httplib/httplib.h:3662-3738 | the loop calls the provider while data is available; the stream is what these calls emit |
| HttpChunked.ReadHex | raw_examples/http_parser/http_parser.c:1996-2047 | the parser reads back every size the writer writes |
| HttpChunked.SizeAcceptedExactly | raw_examples/http_parser/http_parser.c:2012-2047 | among 64-bit sizes exactly those up to 2^64 - 17 are accepted |
| HttpChunked.ReadWritten | raw_examples/http_parser/http_parser.c:1996-2116 | for every use of the sink the parser gets the payloads written before done, and the message completes if and only if done was called, once |
| HttpChunked.EmptyWriteEndsEarly | raw_examples/cpp-httplib/httplib.h:3725-3738 | a provider whose empty write ends the loop with success and without the final marker |
| HttpChunked.ChunkedRoundTrip | raw_examples/http_parser/http_parser.c:1996-2147 | for every provider and every splitting of what it wrote, parser and callbacks are those of one call if and only if no empty call comes too early; then the body is the payloads and the message completes once after done |
| HttpChunked.NonEmptyPiecesRoundTrip | raw_examples/http_parser/http_parser.c:1996-2147 | every splitting into non-empty pieces of what a provider wrote up to done gives the payloads and one completion |
| HttpChunked.ParseInPieces | raw_examples/http_parser/http_parser.c:1944-2147 | calling the parser object piece by piece delivers the specified series |
| HttpGrammar.UnhexIsTable | raw_examples/http_parser/http_parser.c:224-233 | the digit table below 128: the value of a digit of either case, -1 exactly for every other octet |
| HttpGrammar.UnhexRightExactly | raw_examples/http_parser/http_parser.c:224-233 | an octet is read right if and only if it is below 128; the others are taken for 0 |
| HttpGrammar.HighOctetEndsMessage | raw_examples/http_parser/http_parser.c:1996-2047 | such an octet passes for a last chunk |
| HttpGrammar.TokenIsTable | raw_examples/http_parser/http_parser.c:189-221 | the strict token table |
| HttpGrammar.ReadDigits | raw_examples/http_parser/http_parser.c:1996-2047 | any digits, in any case and with leading zeros: their value, or the error exactly above the limit |
| HttpGrammar.ReadLine | raw_examples/http_parser/http_parser.c:1996-2076 | a size line with any chunk extension |
| HttpGrammar.StepFailsExactly | raw_examples/http_parser/http_parser.c:1996-2116 | which octet raises which error in which state of the framing |
| HttpGrammar.ReadMessage | raw_examples/http_parser/http_parser.c:1996-2116 | every chunked body of the grammar is taken with exactly its content and completes once |
| HttpGrammar.AcceptsExactly | raw_examples/http_parser/http_parser.c:1996-2116 | the parser completes if and only if the input starts with a chunked body of the grammar |
| HttpGrammar.MessageTaken | raw_examples/http_parser/http_parser.c:1996-2116 | whatever follows, the content is that of the body |
| ByteBuffer.AdvanceExactly | easy_net/base/buffer.cpp:76-82 | an index ends up behind the octets if and only if there are fewer than 2^31 |
| ByteBuffer.Buffer.Compact | easy_net/base/buffer.cpp:87-92 | moving the contents to the front in place keeps them |
| ByteBuffer.Buffer.EnsureEnoughBytes | easy_net/base/buffer.cpp:84-98 | there is room afterwards, the contents are kept, and the vector grows to at most three times what it must hold |
| ByteBuffer.Buffer.Append | easy_net/base/buffer.cpp:23-27 | appends the octets, compacting or growing as needed |
| ByteBuffer.Buffer.RetriveAsString | easy_net/base/buffer.cpp:29-34 | takes the octets off the front; the indices stay in order if and only if no more is asked for than is readable |
| ByteBuffer.Buffer.Clear | easy_net/base/buffer.cpp:9-13 | empties buffer and vector |
| ByteBuffer.Buffer.RetriveAllAsString | easy_net/base/buffer.cpp:36-42 | takes everything and resets the indices |
| ByteBuffer.ReadFdToBuffer | easy_net/base/socket_opt.cpp:51-88 | whatever the kernel scatters over the free room and the extra buffer arrives at the end, in order |
| ByteBuffer.WriteBufferToFd | easy_net/base/socket_opt.cpp:90-106 | exactly what the kernel took leaves the front; the result tells full, failed and written apart |
| ByteBuffer.PassConserves | easy_net/base/buffer.cpp:23-42 | the reference queue loses, repeats and reorders nothing over any sequence of uses |
| ByteBuffer.Exchange | easy_net/base/socket_opt.cpp:51-106 | for every stream of any length and every sequence of uses that never loads the buffer with 2^29 octets the buffer object does what the unbounded queue does |

## Left out

- Sequence numbers are natural numbers: wrap-around at 2^32 is not modelled, since the source compares them as plain unsigned numbers.
- TcpReceiver.Receiver.RecvBuf: one turn of the read loop; sleeping and waking between turns is not modelled.
- TcpReceiver.Receiver.AbsorbAt: where a length would wrap below 0 the source queues a text that reaches beyond the segment in memory (the assertion there is on an unsigned number); the model ends such a run as it ends at a failed assertion. It takes a stray number above a queued text.
- TcpReceiver.Receiver.SegmentReass: the same.
- TcpStream.InOrderDelivery: asks that segments leave the queue ordered when they arrive; otherwise the assertion of the source can fail, as DuplicateAborts shows.
- TcpDelivery.EveryOrderDelivers: no piece arrives again while it is the last queued text, for the same reason; the stray number is below the stream.
- TcpSocket.TcpSock.CheckAck: the answer of the parent to the third ACK is an input; that a simultaneous open has no parent to ask, the accept backlog and its counter are not modelled.
- TcpSender.SendText: the acknowledgment sent with a null segment at window 0, and whether sending stays within the peer's window, are not modelled.
- TCP replies (RST, ACK, SYN+ACK), URG, hash tables, reference counts and waking of threads are not modelled; the TIME-WAIT list is one abstract expiry step.
- IpFragmentProofs.FragmentThenReassemble: for fresh datagrams, because other packets are cut wrong (RefragmentExactly), and an MTU of at least the header plus 8; the reassembly timer is not modelled.
- Routes with non-contiguous masks, gateways and metrics; the mask order is that of a little-endian host.
- ARP handlers are atomic steps, and a packet handed to the device counts as sent; sending of requests and replies, and the lock released around a retry, are not modelled.
- Link-layer framing, UDP port selection, timers and the event loop of easy_net.
- MessageQueue.CriticalSection: the order in which threads obtain the mutex is arbitrary, and moving items in and out is not modelled.
- HttpParser.HttpParser.Execute: the model stops inside a trailer field and at the next message, whose header and URL grammar is not modelled; strict mode, callbacks return 0.
- HttpFraming.LengthIsExact: the digits only; spaces around the number are header grammar.
- HttpChunked.WriteContentChunked: an identity compressor, a stream that never fails and no shutdown.
- The rest of the HTTP library and HttpContext.
- ByteBuffer.Exchange: a retrieval asks for at most what is held, since otherwise the indices lose their order, as RetriveAsString states; the load stays below 2^29 octets, which keeps every index below the 2^31 that AdvanceExactly shows to be needed; system calls are arbitrary answers.
