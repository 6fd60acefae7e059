# A verified model of the TUN/TAP drivers and the frame codecs around them

The project models the packet machinery of the TAP-Win32 driver, the stream lists of the Solaris
driver, and the codecs that carry frames in and out of them, and proves what they keep over
every run, for every input. `dafny verify dfyconfig.toml` checks all of it.

| file | what it models |
|---|---|
| `RingQueue.dfy` | the circular queue on an array, with its in-place extraction |
| `PacketEngine.dfy`, `PacketInvariants.dfy`, `PacketTheorems.dfy`, `PacketSettling.dfy`, `Accounting.dfy` | transmit, read, cancel and flush threads of the TAP-Win32 driver, interleaved at the critical sections of the queue lock |
| `TapExtension.dfy`, `SerialRuns.dfy` | the same entry points as methods over two ring queues, each run to completion; and the proof that both descriptions agree |
| `TunStreams.dfy` | Solaris streams, each on up to two linked lists, with their DLPI states |
| `StreamProtocol.dfy`, `MinorNumbers.dfy`, `StreamRuns.dfy` | what requests do to streams and interfaces, and are answered, apart from the lists; the device numbers over runs; and the proof that the lists agree with both |
| `Checksum.dfy`, `NeighborDiscovery.dfy` | one's-complement checksums with carry folding; the driver's answer to IPv6 neighbour solicitations |
| `DhcpOptions.dfy`, `DhcpMessage.dfy`, `DhcpServer.dfy` | the DHCP masquerade server: option scan and option builder, reply packets, and the protocol over runs of messages |
| `InterlockedMutex.dfy` | the spin/sleep mutex, for any number of threads |
| `InstanceHash.dfy` | 256 move-to-front buckets against a plain map |
| `BinStruct.dfy` | bit-granular packing and unpacking |
| `MbufChain.dfy` | cutting a written packet into mbufs, and reading one back |
| `TcpFraming.dfy` | length-prefixed frames over partial sends and receives |
| `EthernetFrame.dfy` | the parser of tagged and untagged Ethernet frames |
| `Bytes.dfy`, `Collections.dfy` | shared vocabulary |

How the code is rendered:

* Code that changes state is imperative: classes with the code's own fields, arrays and linked
  nodes, methods with loops. Each method is proved against a specification of its result or of
  the new state, and the lemmas are about these specifications. Ghost fields (`streams`,
  `members`, `chains`, `sizes`) hold the sequence that a structure stands for.
* A step of the packet engine or of the mutex is one critical section or one atomic operation. A run is any
  sequence of steps of any threads; a step that is not enabled changes nothing.
* What the environment decides is a parameter: whether an allocation succeeds, whether a lock is
  obtained, whether the device is up, how much a send or a receive moves.
* Machine arithmetic is explicit where it can matter: 16-bit words, 32-bit sums and counters,
  byte-wide fields.

Results on where the code does not do what one might expect, each with the exact condition:

* "Never both queues non-empty" holds throughout a run of operations that go one at a time
  (`TapExtension.NeverBothThroughout`) and fails under interleaving
  (`PacketSettling.BothQueuesCanBeNonEmpty`): a packet and a read come to wait for each other, with no
  thread left to pair them, exactly when a read is pended past a packet or a match loop is left while
  the device is down (`PacketSettling.SettledExactlyWhen`).
* A stream that has a PPA and attaches again leaves a PPA's list without end or without its control
  stream; the PPAs stay sound exactly when it has none (`TunStreams.Driver.Push`), and throughout a run
  exactly when no such request is granted (`StreamRuns.Serve`). After TUNSETPPA the DLPI state is still
  UNATTACHED, so the request is accepted (`TunStreams.Driver.AttachAfterSetPpa`).
* The range check on a PPA's id lets through exactly one id outside the table
  (`StreamProtocol.PastTheTableExactlyWhen`).
* An open that does not clone goes to the front of the stream list, whatever its minor number. Over a
  run the list stays sorted exactly when such opens are below the least number in use
  (`StreamProtocol.NumbersIncreaseExactlyWhen`).
* The limit of three acknowledged bad DHCP requests ends when the 32-bit counter wraps around. It holds
  for every run of n bad requests exactly when n is at most 2^32 (`DhcpServer.AtMostThreeExactlyWhen`).
* An IPv6 packet is read past its end exactly when it is shorter than a solicitation and nothing in it
  says that it is none (`NeighborDiscovery.StaysInsideExactlyWhen`).
* An attempt on the mutex fails whenever another failed attempt is not taken back yet, even if nobody
  holds the mutex (`InterlockedMutex.RefusedThoughFree`).
* A second adapter for a device is not kept out of the hash (`InstanceHash.AddRepresentsExactlyWhen`).
* A thread that runs the blocking macro is never refused, nor one that runs the adaptive macro at a
  low IRQL (`InterlockedMutex.NeverRefused`).
* A number that does not fit its field loses its high bits (`BinStruct.PackedComesBack`).
* A written packet can exceed the MTU (`MbufChain.WithinMtuExactlyWhen`).
* A frame of no bytes ends a TCP connection (`TcpFraming.DeframedFramed`).
* An untagged frame of a tag type may be misread or refused (`EthernetFrame.UntaggedParses`).
* The organization code of a SNAP frame is right exactly when its first two bytes are zero
  (`EthernetFrame.OuiRightExactlyWhen`), and two codes cannot be told apart exactly when their half
  bytes agree as `EthernetFrame.OuiCollidesExactlyWhen` says.

## Model

| member | source | states |
|---|---|---|
| `RingQueue.LargestIsMaximum` | drivers/windows/tap-win32/mem.c:94-98 | the high-water mark is attained by a size the queue had, and bounds all of them |
| `RingQueue.CompactStep` | drivers/windows/tap-win32/mem.c:163-176 | one turn of the compaction keeps the kept items in order at the front of the window and the rest unread, across the wrap-around |
| `RingQueue.Queue.constructor` | drivers/windows/tap-win32/mem.c:100-114 | a new queue of any positive capacity is empty |
| `RingQueue.Queue.Push` | drivers/windows/tap-win32/mem.c:126-139 | appends and answers the item, or refuses exactly when full and changes nothing; the high-water mark follows |
| `RingQueue.Queue.Pop` | drivers/windows/tap-win32/mem.c:141-153 | takes the head, the rest in order; nothing from an empty queue |
| `RingQueue.Queue.Extract` | drivers/windows/tap-win32/mem.c:155-181 | the in-place two-index loop leaves out every occurrence of the item and keeps the order of the others; it reports the item exactly when it occurred |
| `Accounting.ExactlyOnePlace` | drivers/windows/tap-win32/tapdrvr.c:1822-1850 | what is accounted for is held by one thread, queued once or finished once, never two of these |
| `PacketEngine.Delivery` | drivers/windows/tap-win32/tapdrvr.c:2600-2676 | a completion never reports more bytes than it delivers or than the caller's buffer holds |
| `PacketEngine.DeliveredWhole` | drivers/windows/tap-win32/tapdrvr.c:2625-2669 | a reader gets a packet whole, without its header in tunnel mode, exactly when it has the header and fits the room taken as a signed number; otherwise nothing |
| `PacketInvariants.NextIsLegal` | drivers/windows/tap-win32/tapdrvr.c:1799-1871 | every step of every thread is one of the legal moves of packets and requests |
| `PacketInvariants.KeepsIrpsAccounted` | drivers/windows/tap-win32/tapdrvr.c:2289-2336 | no step loses, duplicates or shares a read request |
| `PacketInvariants.KeepsPacketsAccounted` | drivers/windows/tap-win32/tapdrvr.c:1799-1861 | no step loses, duplicates or shares a packet buffer |
| `PacketInvariants.KeepsPacketsInOrder` | drivers/windows/tap-win32/tapdrvr.c:1829-1836 | departed packets followed by queued ones stay the accepted ones, in order |
| `PacketInvariants.KeepsIrpsInOrder` | drivers/windows/tap-win32/tapdrvr.c:2696-2726 | matched requests followed by waiting ones stay the admitted ones, in order, without the withdrawn; cancelling takes one out wherever it stands |
| `PacketInvariants.KeepsCompletionsExplained` | drivers/windows/tap-win32/tapdrvr.c:2600-2726 | every completion, old or new, has its reason in the history |
| `PacketInvariants.KeepsPairsDelivered` | drivers/windows/tap-win32/tapdrvr.c:1842-1847 | a matched pair is delivered, or one thread is about to deliver it |
| `PacketTheorems.StepKeepsInv` | drivers/windows/tap-win32/tapdrvr.c:1822-1850 | every invariant of the engine survives every step of every thread |
| `PacketTheorems.RunKeepsInv` | drivers/windows/tap-win32/tapdrvr.c:1799-1871 | every invariant holds after every run of any number of threads, in any interleaving |
| `PacketTheorems.IssuedHaveAPlace` | drivers/windows/tap-win32/tapdrvr.c:2242-2336 | the requests and packets accounted for are exactly those that entered the driver |
| `PacketTheorems.IrpInExactlyOnePlace` | drivers/windows/tap-win32/tapdrvr.c:2283-2336 | a read request is completed at most once; otherwise it is queued exactly once or held by exactly one thread |
| `PacketTheorems.PacketInExactlyOnePlace` | drivers/windows/tap-win32/tapdrvr.c:2658-2666 | a packet buffer is freed at most once; otherwise it is queued exactly once or held by exactly one thread |
| `PacketTheorems.PacketsConserved` | drivers/windows/tap-win32/tapdrvr.c:1799-1850 | packets leave in the order they were accepted; accepted = matched + flushed + queued, within the queue's bound |
| `PacketTheorems.IrpsMatchedInOrder` | drivers/windows/tap-win32/tapdrvr.c:2289-2322 | requests are matched in the order of admission, with exactly the cancelled and flushed ones missing |
| `PacketTheorems.CompletionsMeanWhatTheySay` | drivers/windows/tap-win32/tapdrvr.c:2633-2675 | success carries the bytes of the packet matched; a cancelled or failed request was never matched |
| `PacketTheorems.PairingIsFifo` | drivers/windows/tap-win32/tapdrvr.c:1829-1847 | the k-th packet to leave is the k-th accepted, and the request matched with it gets just its bytes |
| `PacketTheorems.EntersExactlyWhen` | drivers/windows/tap-win32/tapdrvr.c:2242-2283 | after every run: which threads can enter, and that entering changes no queue and no history |
| `PacketTheorems.AcceptedExactlyWhen` | drivers/windows/tap-win32/tapdrvr.c:1799-1805 | after every run, whatever happens next: a packet is accepted, and goes to the end of the queue, exactly when its transmit finds the device up and fewer than 64 packets waiting |
| `PacketTheorems.DepartedExactlyWhen` | drivers/windows/tap-win32/tapdrvr.c:1827-1840 | the head packet leaves exactly when a match finds both queues non-empty, a read finds a packet and no other read, or a flush finds a packet; to whom it goes |
| `PacketTheorems.AdmittedExactlyWhen` | drivers/windows/tap-win32/tapdrvr.c:2289-2322 | a read is admitted exactly when it is served at once, or pended with fewer than 16 reads waiting, and then goes to the end of the queue |
| `PacketTheorems.WithdrawnExactlyWhen` | drivers/windows/tap-win32/tapdrvr.c:2696-2745 | a read is withdrawn exactly when its cancellation finds it in the queue, or a flush at the head |
| `PacketTheorems.NothingLeftOver` | drivers/windows/tap-win32/tapdrvr.c:2731-2768 | once queues and threads are empty, each request was completed and each buffer freed exactly once |
| `PacketSettling.SettledStep` | drivers/windows/tap-win32/tapdrvr.c:1822-1850 | with a queue empty or a thread in its match loop, a step leaves packet and read waiting with no such thread exactly when it pends a read past a packet, or leaves the last loop while the device is down and both wait |
| `PacketSettling.SettledExactlyWhen` | drivers/windows/tap-win32/tapdrvr.c:1799-1850 | over every run: the system stays settled throughout exactly when no step of the run is one of these |
| `PacketSettling.NeverBothUnlessBroken` | drivers/windows/tap-win32/tapdrvr.c:2289-2322 | after a run without such a step, and with no thread in its match loop, one queue is empty |
| `PacketSettling.BothQueuesCanBeNonEmpty` | drivers/windows/tap-win32/tapdrvr.c:2289-2322 | a run after which a packet and a read wait for each other, all threads done |
| `TapExtension.Extension.MatchLoop` | drivers/windows/tap-win32/tapdrvr.c:1822-1850 | pairs as many packets with requests as there are of both, in order, and leaves the rest |
| `TapExtension.Extension.Transmit` | drivers/windows/tap-win32/tapdrvr.c:1799-1861 | the packet is queued exactly when the device is up and fewer than 64 packets wait, and dropped and counted otherwise; the exact queues, completions and freed packets; run alone it never leaves both queues non-empty |
| `TapExtension.Extension.Read` | drivers/windows/tap-win32/tapdrvr.c:2270-2336 | served, pended or refused, each exactly when and with which result; run alone it never leaves both queues non-empty |
| `TapExtension.Extension.Cancel` | drivers/windows/tap-win32/tapdrvr.c:2688-2726 | the request leaves the queue, order kept, and is completed as cancelled exactly when it was there |
| `TapExtension.Extension.Flush` | drivers/windows/tap-win32/tapdrvr.c:2731-2768 | both queues end empty; requests are cancelled and packets freed, in order |
| `TapExtension.NeverBothThroughout` | drivers/windows/tap-win32/tapdrvr.c:1799-1861 | at every point of every run of transmits, reads, cancels, flushes and flag changes, one at a time, one queue is empty |
| `TapExtension.Extension.Serve` | drivers/windows/tap-win32/tapdrvr.c:2242-2768 | any such run: queues, completions, freed packets and counters are those of the operations one after another, and one queue is empty at the end |
| `SerialRuns.TransmitAlone` | drivers/windows/tap-win32/tapdrvr.c:1799-1861 | a transmit thread of the interleaved system, run alone from its start, queues its packet exactly when the device is up and fewer than 64 wait, and ends with what Extension.Transmit promises |
| `SerialRuns.ReadAlone` | drivers/windows/tap-win32/tapdrvr.c:2289-2336 | the same for a read: served, pended with fewer than 16 waiting, or refused |
| `SerialRuns.CancelAlone` | drivers/windows/tap-win32/tapdrvr.c:2696-2726 | the same for a cancel callback |
| `SerialRuns.FlushAlone` | drivers/windows/tap-win32/tapdrvr.c:2731-2768 | the same for a flush |
| `TunStreams.Driver.FindMinor` | drivers/solaris/tuntap/tun.c:270-277 | the walk of a clone open stops at the first gap in the numbering |
| `TunStreams.Driver.Open` | drivers/solaris/tuntap/tun.c:262-297 | a clone open puts the stream at the first gap in the numbering, any other at the front; an open of a queue with a stream keeps list and stream; the numbers change accordingly |
| `MinorNumbers.LeastFree` | drivers/solaris/tuntap/tun.c:272-277 | on an increasing list the first gap is the least number not in use |
| `MinorNumbers.InsertedIncreasing` | drivers/solaris/tuntap/tun.c:288-289 | a list stays increasing exactly when the new number goes between a smaller and a greater one |
| `MinorNumbers.ChangedIncreasingExactlyWhen` | drivers/solaris/tuntap/tun.c:262-342 | an open or close keeps the list increasing exactly unless it opens a device whose number is not below the least in use |
| `MinorNumbers.IncreasingExactlyWhen` | drivers/solaris/tuntap/tun.c:262-342 | over every run: the list is increasing throughout exactly when devices are opened only below the least number in use |
| `TunStreams.Driver.JoinPpa` | drivers/solaris/tuntap/tun.c:621-624 | a stream without a PPA goes to the front of one's list; all lists and states stay right |
| `TunStreams.Driver.Push` | drivers/solaris/tuntap/tun.c:437-440 | for every stream: after the push the PPAs are sound (each has an open control stream and a list that ends and holds only streams that point to it) exactly when the stream had no PPA |
| `TunStreams.Driver.NeverEnds` | drivers/solaris/tuntap/tun.c:650-652 | a walk that leads back to its start, or to a stream of another PPA, never ends as it should |
| `TunStreams.Driver.AttachAfterSetPpa` | drivers/solaris/tuntap/tun.c:602-624 | TUNSETPPA and then DL_ATTACH_REQ: the second passes the state check and makes the list a circle |
| `TunStreams.Driver.SetPpa` | drivers/solaris/tuntap/tun.c:425-445 | TUNSETPPA of any stream: each error exactly when; otherwise the stream is first on the list, state unchanged, and the PPAs are sound exactly when it had none |
| `TunStreams.Driver.AttachReq` | drivers/solaris/tuntap/tun.c:590-630 | DL_ATTACH_REQ of any stream: each error exactly when; otherwise the stream is first on the list and UNBOUND, and the PPAs are sound exactly when it had none |
| `TunStreams.Driver.LeavePpa` | drivers/solaris/tuntap/tun.c:649-656 | a member leaves its PPA's list, the order of the others kept |
| `TunStreams.Driver.DetachReq` | drivers/solaris/tuntap/tun.c:632-659 | DL_DETACH_REQ: each error exactly when; otherwise the stream is off the list, points to no PPA and is UNATTACHED |
| `TunStreams.Driver.BindReq` | drivers/solaris/tuntap/tun.c:661-725 | DL_BIND_REQ: each error in the code's order; otherwise the stream is IDLE with its SAP |
| `TunStreams.Driver.UnbindReq` | drivers/solaris/tuntap/tun.c:727-747 | DL_UNBIND_REQ undoes a bind |
| `TunStreams.Driver.AllocPpa` | drivers/solaris/tuntap/tun.c:355-380 | the id asked for, or the least free one, or nothing when all are taken |
| `TunStreams.Driver.NewPpa` | drivers/solaris/tuntap/tun.c:392-423 | TUNNEWPPA of any stream: each error exactly when; otherwise the stream controls a new PPA without members, and the PPAs are sound exactly when it had none before |
| `TunStreams.Driver.DetachAll` | drivers/solaris/tuntap/tun.c:312-319 | every member of a PPA ends UNATTACHED and points to no PPA |
| `TunStreams.Driver.DropPpa` | drivers/solaris/tuntap/tun.c:309-324 | closing a control stream: no stream refers to the freed PPA any more |
| `TunStreams.Driver.Close` | drivers/solaris/tuntap/tun.c:299-342 | the stream is off both lists; all others stay as they were, but the members of a PPA it controlled |
| `StreamProtocol.SetUp` | drivers/solaris/tuntap/tun.c:262-297 | the run that sets up an interface, request by request: control stream, protocol stream attached and bound |
| `StreamProtocol.DetachUndoesAttach` | drivers/solaris/tuntap/tun.c:590-659 | a detach takes an attach back, with every list of members as before |
| `StreamProtocol.UnbindUndoesBind` | drivers/solaris/tuntap/tun.c:661-747 | an unbind takes a bind back |
| `StreamProtocol.CloseUndoesOpen` | drivers/solaris/tuntap/tun.c:262-342 | a close takes an open back |
| `StreamProtocol.NumbersIncreaseExactlyWhen` | drivers/solaris/tuntap/tun.c:262-342 | over every run of requests: the numbers along the list are increasing throughout exactly when devices are opened only below the least in use |
| `StreamRuns.OnClose` | drivers/solaris/tuntap/tun.c:299-342 | a close of any stream, on names and members: the members of a PPA it controlled are without it, or it is no member any more, and nothing else changes |
| `StreamRuns.HandleAt` | drivers/solaris/tuntap/tun.c:1249-1274 | every request of an open stream: its answer, each error exactly when, what becomes of the stream, and that the lists agree with the picture |
| `StreamRuns.Handle` | drivers/solaris/tuntap/tun.c:1249-1274 | every request, opens and closes included, of the stream at its place of the list: answer and picture, unless it gave a PPA to a stream that had one |
| `StreamRuns.Serve` | drivers/solaris/tuntap/tun.c:262-342 | over every run of opens of clone and device nodes and of open queues, closes, PPA and DLPI requests: lists, states, members and answers are those of the picture; the PPAs stay sound exactly when no stream that has a PPA is given one again |
| `Checksum.FoldOnce` | drivers/windows/tap-win32/dhcp.c:96-97 | adding the carry back keeps the value modulo 65535 and makes the sum smaller |
| `Checksum.Fold` | drivers/windows/tap-win32/dhcp.c:134-135 | the carry loop ends with the one's-complement value of the 32-bit sum |
| `Checksum.AddWords` | drivers/windows/tap-win32/dhcp.c:115-128 | the loop adds all words, an odd last byte padded, without overflow |
| `Checksum.WordSumPadded` | drivers/windows/tap-win32/dhcp.c:115-119 | an odd string is summed as if a zero byte followed |
| `Checksum.IpChecksum` | drivers/windows/tap-win32/dhcp.c:81-101 | the checksum of RFC 1071 of the header |
| `Checksum.UdpChecksum` | drivers/windows/tap-win32/dhcp.c:103-139 | the checksum of pseudo-header and segment, for segments up to 65535 bytes of any parity |
| `Checksum.Icmpv6Checksum` | drivers/windows/tap-win32/tapdrvr.c:1435-1471 | the same with the pseudo-header of section 8.1 of RFC 2460 |
| `Checksum.StoredChecksumVerifies` | drivers/windows/tap-win32/dhcp.c:145-156 | storing the checksum in the zeroed field makes the receiver's sum all ones |
| `Checksum.VerifiesExactlyWhen` | drivers/windows/tap-win32/dhcp.c:134-138 | a string verifies exactly when its words sum to a positive multiple of 65535 |
| `Checksum.OneFieldChanged` | drivers/windows/tap-win32/dhcp.c:134-138 | a changed field goes unnoticed exactly when old and new value agree modulo 65535, and the new one is not the zero that makes the whole string zero |
| `NeighborDiscovery.SegmentVerifies` | drivers/windows/tap-win32/tapdrvr.c:1567-1572 | a checksum stored in a segment verifies together with its pseudo-header |
| `NeighborDiscovery.HandleIPv6NeighborDiscovery` | drivers/windows/tap-win32/tapdrvr.c:1483-1583 | in the bytes of packet and answer: answered exactly when it is a solicitation of fe80::8 and memory is there; every field of the answer, its true length, and a checksum that verifies; how far the packet is read |
| `NeighborDiscovery.StaysInsideExactlyWhen` | drivers/windows/tap-win32/tapdrvr.c:1483-1527 | nothing behind the packet is read exactly when it is as long as a solicitation or fails a check on what it has; then the packet alone decides |
| `NeighborDiscovery.AnswerIsNoSolicitation` | drivers/windows/tap-win32/tapdrvr.c:1512-1517 | an answer never calls for another |
| `DhcpOptions.ScanStep` | drivers/windows/tap-win32/dhcp.c:168-193 | how the type found from one place depends on the rest, for every kind of option |
| `DhcpOptions.GetDHCPMessageType` | drivers/windows/tap-win32/dhcp.c:162-195 | the scan stays inside the bytes, ends, and agrees with the decoder on every byte string |
| `DhcpOptions.DecodeInvertsEncode` | drivers/windows/tap-win32/dhcp.c:168-193 | the decoder recovers any options that were encoded, whatever follows END |
| `DhcpOptions.LeadingMessageType` | drivers/windows/tap-win32/dhcp.c:176-184 | a message type in front is found whatever follows |
| `DhcpOptions.AppendAllFits` | drivers/windows/tap-win32/dhcp.c:29-47 | overflow is set exactly when the total exceeds 256 bytes; otherwise the buffer is the concatenation |
| `DhcpMessage.DhcpMsg.SetOpt` | drivers/windows/tap-win32/dhcp.c:29-47 | an append in place, or the overflow flag and no change |
| `DhcpMessage.DhcpMsg.SetOptions` | drivers/windows/tap-win32/dhcp.c:332-357 | the options of a reply, in order |
| `DhcpMessage.FieldsAt` | drivers/windows/tap-win32/dhcp.h:55-102 | at which bytes of the packet each header field lies |
| `DhcpMessage.ReplyOnTheWire` | drivers/windows/tap-win32/dhcp.c:239-307 | a reply byte by byte: unfragmented UDP from port 67 to 68 with the packet's true lengths, the requester's transaction and hardware address, to all exactly when it is a NAK or the request went to all, and an address exactly when it is no NAK |
| `DhcpMessage.ReplyInFull` | drivers/windows/tap-win32/dhcp.c:239-307 | the whole reply, header by header |
| `DhcpMessage.ChecksumsOnTheWire` | drivers/windows/tap-win32/dhcp.c:103-156 | both checksums in the packet's own bytes verify, protocol and length taken from the packet |
| `DhcpMessage.ReplyOptions` | drivers/windows/tap-win32/dhcp.c:336-357 | what the decoder finds in a reply: type, server address, and unless it is a NAK lease time, netmask and the user options |
| `DhcpMessage.DhcpMsg.SetChecksums` | drivers/windows/tap-win32/dhcp.c:145-156 | both checksums verify, and nothing else changes |
| `DhcpMessage.Assembled` | drivers/windows/tap-win32/dhcp.h:55-102 | when a packet of given headers and options is well formed: its lengths are true and both checksums verify |
| `DhcpMessage.OptionLength` | drivers/windows/tap-win32/dhcp.c:336-357 | 10 option bytes in a NAK, 22 more than the user's in an OFFER or ACK |
| `DhcpMessage.SendDHCPMsg` | drivers/windows/tap-win32/dhcp.c:312-389 | sent exactly when memory is there and it is a NAK or the user options have at most 234 bytes; the packet's lengths match its size, both checksums verify, and its type is found again |
| `DhcpMessage.ReplyType` | drivers/windows/tap-win32/dhcp.c:336-337 | the scan recovers the type of every reply |
| `DhcpServer.Adapter.ProcessDHCP` | drivers/windows/tap-win32/dhcp.c:399-450 | dropped, not ours, or answered, each exactly when; the scan of what goes out finds 2 after a DISCOVER, 6 under the stated refusal condition and else 5; and what is remembered |
| `DhcpServer.Adapter.Reply` | drivers/windows/tap-win32/dhcp.c:424-449 | an offer for a DISCOVER, else a NAK or ACK exactly when, the packet that carries it, and what is remembered |
| `DhcpServer.CounterIsHistory` | drivers/windows/tap-win32/dhcp.c:446-447 | the counter is the number of bad requests of the run, modulo 2^32 |
| `DhcpServer.DiscoveryIsHistory` | drivers/windows/tap-win32/dhcp.c:442-443 | the flag says whether the run had a DHCPDISCOVER |
| `DhcpServer.OfferExactlyWhen` | drivers/windows/tap-win32/dhcp.c:429-439 | over every run an offer answers a DISCOVER, always, and nothing else |
| `DhcpServer.RefusedExactlyWhen` | drivers/windows/tap-win32/dhcp.c:429-439 | a request is refused exactly when it names another address, nothing was discovered before, or enough bad requests came before |
| `DhcpServer.AckNeedsDiscover` | drivers/windows/tap-win32/dhcp.c:431 | no ACK before a DHCPDISCOVER was handled |
| `DhcpServer.AfterThreeBadRequests` | drivers/windows/tap-win32/dhcp.h:35 | after three bad requests, however answered, or three more than a multiple of 2^32, every request is refused |
| `DhcpServer.BadAcksBound` | drivers/windows/tap-win32/dhcp.c:418-449 | over every run, at most three bad requests are acknowledged for each time the counter wraps around, and three after the last |
| `DhcpServer.PesteringAttainsBound` | drivers/windows/tap-win32/dhcp.c:418-449 | for every number of bad requests some run attains the bound |
| `DhcpServer.AtMostThreeExactlyWhen` | drivers/windows/tap-win32/dhcp.c:446-447 | all runs of n bad requests have at most three acknowledged exactly when n is at most 2^32 |
| `DhcpServer.FourthBadAck` | drivers/windows/tap-win32/dhcp.c:446-447 | after 2^32 bad requests a fourth one is acknowledged |
| `InterlockedMutex.ApplyKeepsInv` | drivers/windows/tap-win32/lock.h:34-75 | every atomic step keeps the counter equal to the increments not taken back, and one holder at most |
| `InterlockedMutex.RunKeepsInv` | drivers/windows/tap-win32/lock.h:32-75 | the same after every run of any threads |
| `InterlockedMutex.MutualExclusion` | drivers/windows/tap-win32/lock.h:32-75 | at most one thread holds the mutex; the counter is holders plus failed attempts not taken back, and never negative |
| `InterlockedMutex.AttemptSucceedsExactlyWhen` | drivers/windows/tap-win32/lock.h:36-50 | an attempt succeeds exactly when nobody holds the mutex or is backing off |
| `InterlockedMutex.GivesUpExactlyWhen` | drivers/windows/tap-win32/lock.h:36-75 | after every run, a thread that takes a failed increment back gives up exactly when it runs the nonblocking macro, or the adaptive one at a high IRQL, and else tries again |
| `InterlockedMutex.NeverRefused` | drivers/windows/tap-win32/lock.h:36-75 | over every run, a thread that runs the blocking macro only is never refused, nor one that also runs the adaptive one at a low IRQL |
| `InterlockedMutex.RefusedThoughFree` | drivers/windows/tap-win32/lock.h:48-59 | a run in which a thread is refused and nobody holds the mutex |
| `InstanceHash.InstanceHashValue` | drivers/windows/tap-win32/instance.c:45-59 | the hash of every pointer of 4 or 8 bytes is a bucket number |
| `InstanceHash.HashOfBytes` | drivers/windows/tap-win32/instance.c:45-59 | the hash is the exclusive or of all bytes of the pointer |
| `InstanceHash.AddRepresentsExactlyWhen` | drivers/windows/tap-win32/instance.c:161-169 | after an add the buckets represent a map exactly when the device was new |
| `InstanceHash.RemoveRepresents` | drivers/windows/tap-win32/instance.c:190-200 | cutting an entry out of its bucket removes its device, and only it, from the map |
| `InstanceHash.MoveRepresents` | drivers/windows/tap-win32/instance.c:226-231 | moving an entry to the front leaves the map as it is |
| `InstanceHash.Instances.NInstances` | drivers/windows/tap-win32/instance.c:77-103 | the size of the map, or -1 when a lock is not obtained |
| `InstanceHash.Instances.AddAdapter` | drivers/windows/tap-win32/instance.c:147-174 | succeeds exactly with lock and memory; the map then has the adapter for its device, if that is new; after any add some map is represented exactly when the device was new |
| `InstanceHash.Instances.RemoveAdapter` | drivers/windows/tap-win32/instance.c:176-207 | succeeds exactly with the lock, if the map has just this adapter for its device; its entry leaves its bucket, the order of all others kept |
| `InstanceHash.Instances.LookupAdapter` | drivers/windows/tap-win32/instance.c:209-241 | the adapter that the map has for the device, or null without one or without the lock; one entry moves to the front of its bucket and nothing else changes |
| `InstanceHash.Instances.Serve` | drivers/windows/tap-win32/instance.c:147-241 | over every sequence of operations that adds adapters for new devices only, every answer is what the history says: a lookup yields the adapter added last for its device and not removed since |
| `BinStruct.Str2Num` | drivers/osx/tuntap/test/tuntap/packet.py:31-41 | the number in the first bits of a string; nothing is 0; too short a string is an IndexError |
| `BinStruct.Num2Str` | drivers/osx/tuntap/test/tuntap/packet.py:43-54 | the string filled from its end holds the low bits of the number |
| `BinStruct.FromToBits` | drivers/osx/tuntap/test/tuntap/packet.py:31-54 | through the string and back, a number keeps its low bits, at every width |
| `BinStruct.ToFromBits` | drivers/osx/tuntap/test/tuntap/packet.py:31-54 | through the number and back, a string is the same exactly when it has the right size and no stray bits, at every width |
| `BinStruct.BinStruct.constructor` | drivers/osx/tuntap/test/tuntap/packet.py:72-88 | inserting at the front stores the fields in reverse, with their total width |
| `BinStruct.BinStruct.Pack` | drivers/osx/tuntap/test/tuntap/packet.py:94-110 | the fields side by side, each cut to its width; wrong counts and unreadable values are errors, the first one found |
| `BinStruct.BinStruct.Unpack` | drivers/osx/tuntap/test/tuntap/packet.py:112-129 | the fields taken apart from the last to the first; too short a string is an error |
| `BinStruct.DecodeEncode` | drivers/osx/tuntap/test/tuntap/packet.py:109-127 | one field gives back its value exactly when the value fits it |
| `BinStruct.SplitJoin` | drivers/osx/tuntap/test/tuntap/packet.py:104-128 | fields laid side by side are taken apart again, aligned or not |
| `BinStruct.UnpackPack` | drivers/osx/tuntap/test/tuntap/packet.py:94-129 | unpack(pack(values)) is values exactly when every value fits its field |
| `BinStruct.PackUnpack` | drivers/osx/tuntap/test/tuntap/packet.py:94-129 | pack(unpack(data)) is data exactly when the size is right and the last byte has no stray bits; for whole bytes the size decides |
| `BinStruct.FirstByteHighest` | drivers/osx/tuntap/test/tuntap/packet.py:36-37 | the first byte of a string is the most significant |
| `BinStruct.FirstFieldHighest` | drivers/osx/tuntap/test/tuntap/packet.py:104-109 | the first field is in the highest bits |
| `BinStruct.PackRefusedExactlyWhen` | drivers/osx/tuntap/test/tuntap/packet.py:31-41 | packing fails exactly when some value is refused by its field, with the error of the first such |
| `BinStruct.FieldComesBack` | drivers/osx/tuntap/test/tuntap/packet.py:104-128 | what one field gives back of whatever it took: the low bits of a number, the bits of a string that its width asks for, zeros for nothing |
| `BinStruct.PackedComesBack` | drivers/osx/tuntap/test/tuntap/packet.py:94-129 | the same of every value of a struct |
| `MbufChain.CdevWrite` | drivers/osx/tuntap/src/tuntap.cc:634-688 | each mbuf is filled once and from its start, the chain holds exactly a prefix of the data, the header length is its length, and the loop ends only at the end of the data or at the MTU; each error exactly when |
| `MbufChain.Fill` | drivers/osx/tuntap/src/tuntap.cc:651-664 | a chunk goes into the last mbuf and nowhere else |
| `MbufChain.CopiedBound` | drivers/osx/tuntap/src/tuntap.cc:650-667 | less is copied than the MTU and what the last mbuf can take of it |
| `MbufChain.WithinMtuExactlyWhen` | drivers/osx/tuntap/src/tuntap.cc:651-668 | the MTU is kept exactly when the data is that short, the first mbuf holds an MTU, or some of the first mbufs hold exactly one together |
| `MbufChain.MtuExceeded` | drivers/osx/tuntap/src/tuntap.cc:651-668 | two mbufs that hold more than the MTU |
| `MbufChain.CdevRead` | drivers/osx/tuntap/src/tuntap.cc:588-614 | the reader gets the start of the packet, as much as fits; an error exactly when a copy fails before the packet or the room ends, after the buffers copied so far |
| `TcpFraming.SendData` | src/daemon/tapserver.c:123-136 | however the kernel cuts it, all bytes go out in order; after an error a proper prefix did |
| `TcpFraming.RecvData` | src/daemon/tapserver.c:138-151 | however the kernel cuts it, exactly the next bytes of the stream come in, awaited if they are not there yet |
| `TcpFraming.SendFrame` | src/daemon/tapserver.c:186-194 | header and frame go out, or a prefix of them |
| `TcpFraming.ReceiveFrame` | src/daemon/tapserver.c:267-275 | the next frame of the stream; a length of 0 or above 4096 ends the connection |
| `TcpFraming.DeframedFramed` | src/daemon/tapserver.c:186-194 | the receiver's decoding yields the sent frames exactly when each has 1 to 4096 bytes |
| `TcpFraming.DeframedPart` | src/daemon/tapserver.c:267-271 | more bytes never change the frames already decoded |
| `TcpFraming.FramesArriveInOrder` | src/daemon/tapserver.c:267-271 | at every moment the receiver has the first of the sent frames, and no others |
| `TcpFraming.DeframedMore` | src/daemon/tapserver.c:267-275 | bytes that follow are decoded as if they came behind what is left of the frame under way |
| `TcpFraming.Sender.Step` | src/daemon/tapserver.c:123-136 | one call of send: what went out and what is still to go are what was to go |
| `TcpFraming.Receiver.Step` | src/daemon/tapserver.c:138-151 | one call of recv: frames and buffers are what the decoder makes of all the bytes so far |
| `TcpFraming.Transfer` | src/daemon/tapserver.c:123-151 | calls of send and recv in any order, inside frames as well, each moving any number of bytes: the receiver always has the first frames and no others, in the end all, and both ends come to an end |
| `EthernetFrame.ParseHead` | src/bindings/EthernetFrame.cs:66-119 | addresses and tags, read step by step, with every exception |
| `EthernetFrame.ParseBody` | src/bindings/EthernetFrame.cs:132-165 | 802.2, SNAP or raw 802.3, read step by step, with every exception |
| `EthernetFrame.Parse` | src/bindings/EthernetFrame.cs:66-166 | the whole constructor computes the specified frame or throws the specified exception; every frame has its data, and its addresses from the first 12 bytes |
| `EthernetFrame.FieldsOfTci` | src/bindings/EthernetFrame.cs:115-119 | priority, format and VLAN of a tag come back from PCP << 13, CFI << 12 and VID |
| `EthernetFrame.TciOfFields` | src/bindings/EthernetFrame.cs:115-119 | and every tag value is given by its fields |
| `EthernetFrame.UntaggedHead` | src/bindings/EthernetFrame.cs:68-83 | whatever follows the addresses, type or length: taken without tags exactly when |
| `EthernetFrame.SingleTaggedHead` | src/bindings/EthernetFrame.cs:73-119 | one tag gives its fields, whatever follows, and the rest begins at byte 18 |
| `EthernetFrame.DoubleTaggedHead` | src/bindings/EthernetFrame.cs:73-119 | two tags likewise, and the rest begins at byte 22 |
| `EthernetFrame.HeadRefusedExactlyWhen` | src/bindings/EthernetFrame.cs:66-101 | which exception is thrown before the body, each exactly when |
| `EthernetFrame.UntaggedParses` | src/bindings/EthernetFrame.cs:73-130 | an untagged frame comes back exactly under the stated condition on its type and payload |
| `EthernetFrame.SingleTaggedParses` | src/bindings/EthernetFrame.cs:98-130 | a frame with one 802.1Q tag comes back exactly when its type is at least 0x0800 and not 0x8100 |
| `EthernetFrame.DoubleTaggedParses` | src/bindings/EthernetFrame.cs:74-130 | a doubly tagged frame comes back exactly when the outer type is a tag type and its own at least 0x0800 |
| `EthernetFrame.LengthDecides` | src/bindings/EthernetFrame.cs:132-165 | a frame with a length is taken exactly when the length covers its header and is there, each exception has its condition, and every field of the frame is given |
| `EthernetFrame.TooShortForLength` | src/bindings/EthernetFrame.cs:135-146 | without two bytes of body a frame with a length is refused |
| `EthernetFrame.PaddingJoinsNoPayload` | src/bindings/EthernetFrame.cs:163-165 | padding changes nothing but the copy of the data; only an Ethernet II payload grows by it |
| `EthernetFrame.OuiRightExactlyWhen` | src/bindings/EthernetFrame.cs:151-153 | the organization code is the standard's exactly when its first two bytes are zero |
| `EthernetFrame.OuiCollidesExactlyWhen` | src/bindings/EthernetFrame.cs:151-153 | two organization codes read alike exactly when their outer half bytes agree, and the two overlaid pairs between |

## Left out

- TunStreams.Driver.AttachReq: says nothing about the one id past the table (PastTheTableExactlyWhen), where the code reads what lies behind the table.
- TunStreams.Driver.SetPpa: says nothing about that id either.
- TunStreams.Driver.NewPpa: says nothing about that id either.
- StreamRuns.Serve: ends with the first request that ruins the PPAs, and takes no request for the one id past the table; SetPpa, AttachReq and NewPpa say what the former do.
- InstanceHash.Instances.Serve: requires adds of new devices, since no map is represented after another one; AddAdapter and AddRepresentsExactlyWhen state that.
- NeighborDiscovery.HandleIPv6NeighborDiscovery: assumes that memory goes on for the size of a solicitation; its content behind the packet is arbitrary.
- TcpFraming.RecvData: requires that the bytes arrive at some time; a connection closed by the peer, on which recv moves no byte and the loop does not end, is not modelled.
- RingQueue.Queue.constructor: does not model the 32-bit arithmetic of the queue's size in bytes.
- Checksum.UdpChecksum: the code does not replace a zero result by all ones (RFC 768), and nothing is claimed about it.
- InterlockedMutex.MutualExclusion: no liveness; the retry loops give no guarantee that a thread ever gets the mutex.
- Cancel callbacks whose adapter is not found, which complete the request without touching the queue.
- The injection queue of the TAP-Win32 driver, its timer, and the third loop of FlushQueues.
- Structured exceptions, the NDIS buffer chain that a transmit copies from, and the protocol filters before the queue, which let a packet through or not.
- MAC, promiscuous, raw and multicast flags of Solaris streams, message forwarding between them, and allocation failures of acknowledgements.
- Locking of the single buckets against each other: operations on a bucket are serialized by its mutex, so one operation at a time is modelled.
- The format strings of BinStruct: the constructor takes the fields that a format string denotes.
- The bounded mbuf queue of tuntap.cc, which repeats the first-in first-out behaviour of mem.c; hand-over to the network stack, and blocking reads.
- Client removal and forwarding between clients in tapserver.c.
- OID tables, power management, adapter setup and teardown, ARP replies, netmask arithmetic, logging and packet dumps: wide switches with easy claims.
