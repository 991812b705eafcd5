# Verified model of stamrust

stamrust turns a microcontroller into a USB network device (CDC NCM) with a DHCP server and a small web server.
This project models the code that moves and transforms bytes and proves what it does over whole runs.

| file | models |
|---|---|
| `Wire.dfy` | bytes, little-endian words, fixed-size buffers with a length |
| `Ring.dfy` | the bounded queues |
| `Ntb.dfy` | the 16-bit NCM transfer block: serialisers, parsers, what the receiver can read, on raw bytes |
| `NtbStandard.dfy` | the datagrams of a block as NCM 1.0 defines them, and when the receiver's reading agrees |
| `NcmTx.dfy`, `NcmTransfer.dfy` | the transmit half of `process_messages`: runs, packets, transfers, progress |
| `NcmRx.dfy`, `NcmTraffic.dfy` | the receive half: reassembly, decoding, resynchronisation; streams of blocks and junk |
| `NcmApi.dfy` | `NcmApiManager` as a class with its arrays and counters, refining both machines |
| `Loopback.dfy` | transmit followed by receive |
| `UsbIp.dfy` | `UsbIpManager`: boot states and the packet pump |
| `MainLoop.dfy`, `Firmware.dfy` | the main loop as a state machine over runs, and as objects wired together |
| `Link.dfy`, `Delivery.dfy`, `LinkDelivery.dfy` | two devices back to back; bounded delivery to the endpoint, and to the peer |
| `DhcpCodec.dfy`, `Dhcp.dfy`, `DhcpLeases.dfy` | message layout, options, the server, leases over histories |
| `DhcpStandard.dfy` | the message type by RFC 2132 and the address range, and when the server agrees with them |
| `Http.dfy`, `HttpFormat.dfy` | request parsing on every prefix; requests written out and characters encoded, as the parser and decoder must give them back |
| `Server.dfy` | `run_webserver`: responses over partial sends |
| `Servers.dfy` | `eth_task`: both servers called in turn, the DHCP socket's buffer, and when the whole firmware halts |
| `WebRequests.dfy`, `WebStuck.dfy`, `Handlers.dfy` | what the receives of a run do: segmentation, sequences of requests, bytes that silence the server, the POST handler |

How the model is built:

- Each object that the source updates in place is a class whose methods are proved against a step function on a
  value (`View`, `TxView`, `RxView`). Theorems about runs are lemmas about the step functions.
- A panic is an outcome, `Panic`, and it is absorbing, because the panic handler stops the processor. Where the
  source relies on its inputs, a lemma says for all inputs exactly when it panics. Arithmetic that overflows panics,
  as the development profile configures (`Cargo.toml:39-45`).
- The endpoints, the sockets and the network stack are inputs of each step: which reads, writes and notifications
  succeed, how many bytes a send takes, and the stack's turn, which either panics or takes and sends frames. So are the
  HTTP handlers at that moment, which may panic; `Handlers` gives the POST handler itself, and `Servers` the turns in
  which the web server and the DHCP server are what panics.

Main results:

- **Loopback.** For every sequence of non-empty frames and every pattern of refused pushes, a receiver fed with the
  pushed packets delivers exactly the frames whose last byte was pushed, at every moment of the run
  (`Loopback.LoopbackIsIdentity`).
- **Whole system.** Over every run of the main loop, packets and bytes are conserved from the frame queue to the
  endpoint, the receive queue is empty and no block waits when an iteration starts, and nothing is flushed
  (`MainLoop.RunKeeps`, `MainLoop.WholePathConserved`). An iteration panics exactly when the transmit machine, the
  receive machine or the stack's turn does (`MainLoop.IterateKeeps`); fed from a stream the receiver survives, and with
  no empty frame, a run halts exactly when a turn of the stack panics (`MainLoop.RunSafe`), which with the two servers
  means a fatal web request, an unreadable or unservable DHCP message, or two DHCP requests with nothing sent between
  them (`Servers.FirmwareHaltsExactly`). The objects, created and looped, do what the model's runs do (`Firmware.RunMain`).
- **Two devices** back to back halt exactly when a turn of a stack panics and exchange their frames unchanged, under
  every interleaving (`Link.EndToEnd`). From any booted moment on, once an endpoint has been ready 90 times it has taken
  the packets of every frame accepted by that moment, whatever is read, sent or refused meanwhile
  (`Delivery.AllAcceptedIsWritten`, `Delivery.SafeDelivery`), and as many reads later as packets were missing the peer
  has decoded all of them (`LinkDelivery.DeliveredWithin`).
- **Reassembly** does not depend on packetisation, and junk between blocks is invisible (`NcmRx.Reassembles`,
  `NcmRx.JunkIsInvisible`). Over all traffic the receiver halts exactly on a block that is not readable where it lies in
  the buffer, and otherwise delivers exactly the frames found there (`NcmTraffic.TrafficExactly`); for blocks with a table
  of their own these are the blocks with an entry of more than 576 bytes or past byte 2048, and on plain NCM 1.0 traffic
  the frames of more than 576 bytes (`NcmTraffic.TrafficDelivered`). This needs the invariant of the main loop, one
  packet a call: a drain that finds several blocks decodes the last one only (`NcmTraffic.TurnKeepsLastBlock`), and one
  that ends inside a block reads a table from mixed bytes (`NcmTraffic.TwoBlocksInOneDrain`).
- **Leases.** Over every history the table is the list of clients in order of first appearance, two replies carry the
  same address exactly when they answer the same client, and the server halts exactly when addresses run out
  (`DhcpLeases`).
- **Web server.** However an ASCII request is segmented, the server waits while its headers are incomplete, and the
  receive that completes them is answered, or is one of those that halt the firmware: `Handlers.FatalExactly` says which
  (`WebRequests.SegmentationIndependence`). A sequence of requests is answered one for one exactly when no receive goes
  beyond the request it starts in, one that ends short of it leaves the headers incomplete, and none is fatal
  (`WebRequests.RequestsAnswered`). For all bytes on which the server waits: nothing that can follow makes them a request
  exactly when they are stuck, which silences the server for ever, or a first line that has ended without a path
  (`WebStuck.StuckForEver`, `WebStuck.StuckExactly`, `WebStuck.SpoilsExactly`). Responses are conserved under partial sends
  (`Server.ResponsesConserved`).

Where the code differs from its standards or from what its names suggest, the model follows the code:

- The zero-length packet is decided by the payload length, not the block length, so section 5.8.3 of USB 2.0 is met for
  some frames only: `NcmTransfer.OneTransferExactly` says which, `NcmTransfer.NotOneTransfer` names three that are not.
- After an empty frame the next frame halts the firmware: `NcmTx.PanicsExactlyAfterEmptyFrame`, `NcmTx.EmptyFrameJams`.
- The device announces segments of up to 1514 bytes (`src/cdc_ncm.rs:34`), but a received frame of more than 576 halts
  the firmware, plain as its block may be: `NcmTraffic.LongFrameHaltsReceiver`, `NtbStandard.PlainHaltsExactly`.
- An entry past the end of its block and inside the buffer is not refused; it delivers bytes of earlier blocks:
  `NtbStandard.StaleBytesAreDelivered`.
- A block length of 0, by which section 3.2.1 of NCM 1.0 lets a short packet end the block, halts the firmware at the next
  packet: `NcmRx.ZeroBlockLengthHalts`.
- In section 3.3 of NCM 1.0 a null entry ends the datagrams of a table, and a table can name a next one. The receiver
  delivers the datagrams of all entries of non-zero length in the first table, null entry or not, and never looks at a
  next table. `NcmTraffic.SessionAgreesExactly` says for every standard block when it halts the receiver and when the
  two readings give the same frames; `NtbStandard.LateEntryIsDelivered` and `NtbStandard.ChainIsIgnored` give blocks on
  which they differ, and `NcmTraffic.LateEntryHalts` blocks, empty by the standard, that halt the firmware.
- A block that ends exactly with its first packet completes only when the next packet arrives, and what that packet
  holds is lost: `NcmRx.FirstPacketDecides`. A zero-length packet there loses nothing
  (`NcmTraffic.ZeroLengthCompletes`); without it every second such block is lost
  (`NcmTraffic.EverySecondBlockIsLost`).
- `maxaddr` is never consulted: `DhcpStandard.RangeHoldsExactly` says when addresses stay below it all the same, and in
  the firmware's own configuration the 125th client is the first that gets one beyond (`DhcpStandard.MaxaddrIgnored`).
  The 251st is given the broadcast address (`DhcpStandard.BroadcastIsGiven`, `DhcpStandard.UnusableGivenExactly`).
- Two DHCP requests between which the stack sends nothing halt the firmware, because the socket holds one reply:
  `Servers.SecondReplyHalts`.
- `recv` takes the first option of a DHCP message for the message type without looking at its code
  (`DhcpStandard.CodeIsIgnored`), where section 9.6 of RFC 2132 has code 53 anywhere among the options.
  `DhcpStandard.TypeReadRightly` says when it is right, `DhcpStandard.HostnameGetsOffer` gives a message that has no
  message type and gets an Offer and a lease.
- The lease time is written little-endian, where section 9.2 of RFC 2132 has network order: `Dhcp.LeaseTimeByteOrder`.
- The body handed to a handler is what has arrived when the headers are complete (`WebRequests.BodyIsWholeExactly`). A
  POST to `/rgb` whose first seven body bytes come later halts the firmware (`Handlers.HandlerPanicsExactly`), and body
  bytes that come later are taken for the next request, which can silence the server (`WebStuck.LateBytesStick`).

## Model

| member | source | states |
|---|---|---|
| Ntb.ConvNthToBytes | src/ncm_api.rs:112-123 | the header serialiser appends the five fields little-endian, in order |
| Ntb.ConvNdpToBytes | src/ncm_api.rs:96-110 | the table serialiser appends its three fields, then index and length of every entry in order |
| Ntb.NthRoundTrip | src/ncm_api.rs:112-141 | a serialised header with the right signature parses back to itself, whatever follows it |
| Ntb.NthParsesOnlyItself | src/ncm_api.rs:125-141 | what parses as a header is byte for byte the serialisation of the result |
| Ntb.EntriesRoundTrip | src/ncm_api.rs:103-163 | the serialised entries of any list, cut into 4-byte chunks, are the list |
| Ntb.NdpRoundTrip | src/ncm_api.rs:96-172 | a serialised table of any size with length 8+4n parses back to itself with its empty entries filtered out |
| Ntb.NonEmptyMembers | src/ncm_api.rs:162 | the filter keeps an entry exactly when its length is not zero |
| Ntb.NonEmptyConcat | src/ncm_api.rs:155-163 | the filter works entry by entry, so order and multiplicity are kept |
| Ntb.OwnBlockBytes | src/ncm_api.rs:240-265 | the emitted block byte by byte: NCMH, 12, sequence, length, 12; NCM0, 16, 0, 28, frame length, a zero entry; the frame |
| Ntb.HeaderTakenExactly | src/ncm_api.rs:125-141 | a header is taken exactly when 12 bytes are there and begin with the letters NCMH, and its fields are the words at bytes 6, 8 and 10 |
| Ntb.TableTakenExactly | src/ncm_api.rs:143-172 | a table is taken exactly when it begins with the letters NCM0 and its length is a multiple of 4, at least 8 and within the slice; its entries are the words from byte 8 on |
| Ntb.OwnBlockWellFormed | src/ncm_api.rs:240-265 | read back at its offset, every header field of an emitted block has its NCM 1.0 value: sizes, sequence, one datagram after both headers and inside the block, zero terminator |
| Ntb.OwnBlockCarriesFrame | src/ncm_api.rs:240-265 | an emitted block of a non-empty frame is one the receiver accepts, and carries exactly that frame |
| Ntb.HaltsExactly | src/ncm_api.rs:380-399 | a block with a table of its own is readable exactly if it has no entry of more than 576 bytes or past byte 2048, whatever the buffer held before |
| NtbStandard.AgreesExactly | src/ncm_api.rs:153-163 | on a standard block that does not halt it, the receiver's frames are those of NCM 1.0 exactly when what it cuts from its buffer for the entries after the null one is what the chained tables hold; frames of any length are standard |
| NtbStandard.PlainHaltsExactly | src/ncm_api.rs:380-399 | a block of one table with nothing after its null entry halts the receiver exactly when one of its frames is longer than 576 bytes, and otherwise gives the frames of NCM 1.0 |
| NtbStandard.LongFrameHalts | src/cdc_ncm.rs:34 | for every frame of 577 to the announced 1514 bytes, the block that holds it alone is plain, carries it, and halts the receiver |
| NtbStandard.StaleBytesAreDelivered | src/ncm_api.rs:385-389 | an entry past the end of its block delivers what the buffer held there before |
| NtbStandard.AgreesWithoutChain | src/ncm_api.rs:153-163 | on a standard block that does not halt the receiver, without chained datagrams the two readings agree exactly when every entry after the null one is empty |
| NtbStandard.AgreesWithoutLateEntries | src/ncm_api.rs:153-163 | on a standard block that does not halt the receiver, with nothing after the null entry the two readings agree exactly when no chained table holds a datagram |
| NtbStandard.LateEntryIsDelivered | src/ncm_api.rs:153-163 | for every frame, a block with the frame's entry after the null one: the receiver delivers it, by the standard the block is empty |
| NtbStandard.ChainIsIgnored | src/ncm_api.rs:143-172 | for every two frames, the first of which may be missing, a block with two chained tables: the receiver takes the first, or nothing, by the standard both are there |
| NtbStandard.OwnBlockIsPlain | src/ncm_api.rs:240-265 | an emitted block has one table and nothing after its null entry, so both readings agree on it |
| NcmTx.LoadBuildsBlock | src/ncm_api.rs:240-265 | with an empty table, loading a frame succeeds and leaves the frame's numbered block at the start of the buffer |
| NcmTx.StepMovesPackets | src/ncm_api.rs:277-331 | while a frame is held no step panics, and a step only moves packets from those remaining to the queue; the table is cleared on the way to Ready unless the frame was empty |
| NcmTx.RunKeepsInvariant | src/ncm_api.rs:237-331 | over every run: counters in order, Ready implies an empty table and a zero counter except after an empty frame, the buffer holds the current block, pushed and remaining packets are the stream of the frames taken |
| NcmTx.PanicsExactlyAfterEmptyFrame | src/ncm_api.rs:237-331 | a step panics exactly when a frame is taken after an empty one; so "sent too many bytes" is unreachable |
| NcmTx.EmptyFrameJams | src/ncm_api.rs:237-331 | an empty frame, its header taken, and then any frame: the firmware halts |
| NcmTx.NeverPanics | src/ncm_api.rs:237-331 | with no empty frame no run panics, under any pattern of refusals |
| NcmTransfer.ChunksShape | src/ncm_api.rs:291-314 | chunks carry exactly their string, ceil(n/64) of them, all full but the last |
| NcmTransfer.FrameBytes | src/ncm_api.rs:270-331 | the packets of a frame carry the bytes of its block and nothing else |
| NcmTransfer.KthBlock | src/ncm_api.rs:253-258 | the k-th block of the stream is the k-th frame's, numbered k modulo 65536 |
| NcmTransfer.BytesConserved | src/ncm_api.rs:237-331 | over every run the bytes pushed, then the unsent tail, are the blocks of the frames taken |
| NcmTransfer.CurrentFrameBytes | src/ncm_api.rs:277-314 | over every run, while a frame is held the counter is within the block, the block within 2048 bytes, and the bytes pushed for the frame are the buffer's first txtransactioncnt bytes |
| NcmTransfer.FramePacketCount | src/ncm_api.rs:270-331 | a frame of m bytes takes 2 packets if m <= 36, else ceil((28+m)/64) and one more if 64 divides m |
| NcmTransfer.EndsShortExactly | src/ncm_api.rs:315-330 | the last packet of a frame is short unless m > 36 and 64 divides 28+m, and only then |
| NcmTransfer.FullUntilLastExactly | src/ncm_api.rs:270-329 | no earlier packet is short exactly when m > 36 and 64 does not divide m |
| NcmTransfer.OneTransferExactly | src/ncm_api.rs:270-329 | a frame is one USB transfer exactly when m > 36 and 64 divides neither 28+m nor m |
| NcmTransfer.NotOneTransfer | src/ncm_api.rs:315-317 | frames of 100, 20 and 64 bytes are not one transfer |
| NcmTransfer.StepProgress | src/ncm_api.rs:277-331 | an accepted step brings Ready exactly one step closer, a refused one changes nothing |
| NcmTransfer.ReturnsToReady | src/ncm_api.rs:277-331 | under every schedule, as many accepted pushes as steps are left bring Ready back |
| NcmTransfer.StepsPerFrame | src/ncm_api.rs:270-331 | a frame takes one accepted step per packet, and one more when no zero-length packet ends it |
| NcmRx.StartsBlockExactly | src/ncm_api.rs:336-358 | between blocks a packet starts a block exactly when it has at least 12 bytes and begins with the letters NCMH; every other packet is junk and changes nothing; it panics exactly when it announces more than 2048 bytes |
| NcmRx.FeedPanicsExactly | src/ncm_api.rs:336-372 | a packet halts the firmware exactly when it announces more than 2048 bytes, or when the counter exceeds the block length |
| NcmRx.FirstPacketDecides | src/ncm_api.rs:343-372 | after a first packet of p bytes: block length below p halts on the next packet, equal to p swallows the next packet, above p goes on |
| NcmRx.ZeroBlockLengthHalts | src/ncm_api.rs:343-372 | a block length of 0 halts the firmware at the next packet |
| NcmRx.CopyRest | src/ncm_api.rs:360-372 | from the middle of a block, any packets carrying the rest complete it and leave it in the buffer |
| NcmRx.Reassembles | src/ncm_api.rs:334-373 | however a block is sent, in packets the first of which holds the header and not the whole block, or whole in its first packet with any packet after it, the drain ends in AwaitHeader with the block at the start of the buffer, also if an earlier block waits to be decoded |
| NcmRx.DecodesBlock | src/ncm_api.rs:376-402 | a buffered well-formed block is decoded to exactly the frames its table points at, in order |
| NcmRx.DecodesExactly | src/ncm_api.rs:376-400 | decoding succeeds exactly when the buffer has a readable table where the header points and all its entries fit, and then gives the slices these name |
| NcmRx.TurnExactly | src/ncm_api.rs:334-402 | a call that finds a block, however sent and whatever came before it, halts exactly when the buffer holds no readable table where the header points or an entry that does not fit, and otherwise delivers the frames found there |
| NcmRx.SessionExactly | src/ncm_api.rs:334-402 | the same, one packet a call |
| NcmRx.SessionBlock | src/ncm_api.rs:334-402 | however a readable block is sent, one packet a call, exactly its frames are delivered |
| NcmRx.TurnBlock | src/ncm_api.rs:334-402 | the same when one call finds all the packets |
| NcmRx.JunkIsInvisible | src/ncm_api.rs:336-346 | a packet of fewer than 12 bytes or without the letters NCMH, dropped anywhere between blocks, changes neither the frames nor the final state |
| NcmTraffic.SessionAgreesExactly | src/ncm_api.rs:334-402 | every standard block, however sent: the receiver halts exactly when the first table has an entry of more than 576 bytes or past byte 2048, and otherwise delivers the frames of NCM 1.0 exactly when what it keeps after the null entry is what the chained tables hold |
| NcmTraffic.LongFrameHaltsReceiver | src/ncm_api.rs:385-389 | a frame of 577 to 1514 bytes in a block of its own, however sent, halts the firmware |
| NcmTraffic.LateEntryHalts | src/ncm_api.rs:380-400 | every block whose one entry comes after the null one and does not fit is empty by the standard and halts the firmware |
| NcmTraffic.TrafficExactly | src/ncm_api.rs:334-402 | over all traffic of blocks and junk, however sent: the receiver panics exactly when a block is not readable over what the blocks before it left in the buffer, and otherwise delivers exactly the frames found there, in order |
| NcmTraffic.TrafficDelivered | src/ncm_api.rs:334-402 | by the blocks' own bytes: with tables of their own it panics exactly when a block has an entry of more than 576 bytes or past byte 2048; with entries inside the blocks it delivers their frames; on plain blocks it panics exactly when a frame is longer than 576 bytes and otherwise delivers the frames of NCM 1.0 |
| NcmTraffic.TrafficPrefix | src/ncm_api.rs:334-402 | at every point inside traffic that does not halt it the frames delivered are the first ones |
| NcmTraffic.TurnKeepsLastBlock | src/ncm_api.rs:334-402 | the same traffic found by one call: it halts exactly when the last block is not readable and otherwise delivers that block's frames alone; what earlier blocks held is lost |
| NcmTraffic.LastBlockDecides | src/ncm_api.rs:334-402 | the same by the last block's own bytes |
| NcmTraffic.TwoBlocksInOneDrain | src/ncm_api.rs:334-402 | a call that finds a block and the beginning of another reads a table at the second header's index in a buffer whose start the second block has overwritten: it halts exactly when none fits there, otherwise delivers the slices named there and goes on inside the second block |
| NcmTraffic.ZeroLengthCompletes | src/ncm_api.rs:360-372 | a zero-length packet completes a block of one packet and nothing is lost |
| NcmTraffic.EverySecondBlockIsLost | src/ncm_api.rs:334-402 | of blocks that fill one packet each, sent one after the other, exactly the first, third, fifth ... are delivered |
| Ring.PushAllKeepsFirst | src/ncm_api.rs:392-397 | datagrams that find the Ethernet queue full are lost, the first that fit survive in order |
| NcmApi.NcmApiManager.BuildBlock | src/ncm_api.rs:240-275 | the body of Ready, in place: table entries, header, numbering, three copies, next state |
| NcmApi.NcmApiManager.TakeFrame | src/ncm_api.rs:238-276 | Ready takes the head of the frame queue, or does nothing |
| NcmApi.NcmApiManager.SendHeader | src/ncm_api.rs:277-290 | Header pushes the 28 header bytes or waits |
| NcmApi.NcmApiManager.SendChunk | src/ncm_api.rs:291-314 | Sending pushes the next chunk or waits |
| NcmApi.NcmApiManager.EndFrame | src/ncm_api.rs:315-330 | Zlp pushes a zero-length packet if the payload length calls for one, then clears up |
| NcmApi.NcmApiManager.ReceivePacket | src/ncm_api.rs:335-373 | one turn of the drain loop on the in-place buffer is one step of the receive machine |
| NcmApi.NcmApiManager.DrainRing | src/ncm_api.rs:334-374 | the drain loop empties the queue and is the fold of that step |
| NcmApi.NcmApiManager.ProcessNdp | src/ncm_api.rs:221-225 | the table parsed from the buffer at the header's index |
| NcmApi.NcmApiManager.PushDatagrams | src/ncm_api.rs:380-400 | the walk over the table queues its datagrams in order, dropping those that find the queue full |
| NcmApi.NcmApiManager.DeliverBlock | src/ncm_api.rs:376-402 | a completed block is decoded once and the flag cleared |
| NcmApi.NcmApiManager.ProcessMessages | src/ncm_api.rs:232-403 | one transmit step on the queues, then drain and decode, and nothing else |
| Loopback.StaysCoupled | src/ncm_api.rs:237-402 | at every moment of every run the receiver is idle or inside the transmitter's current block at the same byte |
| Loopback.LoopbackIsIdentity | src/ncm_api.rs:237-402 | the receiver has delivered exactly the frames whose last byte was pushed, in order, and never panics |
| Loopback.OneFrameAtATime | src/ncm_api.rs:237-402 | no packet of the stream completes more than one frame |
| UsbIp.OutgoingConserved | src/usbipserver.rs:70-81 | outgoing packets only move from the queue through the pending slot to the endpoint, in order |
| UsbIp.PumpProgress | src/usbipserver.rs:70-81 | a call that finds the endpoint ready lowers the backlog by one; none raises it |
| UsbIp.UsbIpManager.ProcessUsb | src/usbipserver.rs:58-82 | the pump on the object's fields and queues; the unwrapped push cannot fail |
| UsbIp.UsbIpManager.RunLoopOnce | src/usbipserver.rs:84-102 | one call by boot state |
| MainLoop.IterateKeeps | src/main.rs:261-272 | one iteration keeps the system invariant and panics exactly when the transmit machine, the receive machine or the stack's turn does |
| MainLoop.RunKeeps | src/main.rs:261-272 | over every run the receive queue is empty and no block waits when an iteration starts, nothing was flushed, each machine has made a run of its own, packets and frames are conserved |
| MainLoop.OrderOfTurn | src/main.rs:261-272 | within one iteration a packet written and a frame taken by the transmitter were queued in an earlier one, while a decoded frame reaches a stack that takes frames in the same one |
| MainLoop.WholePathConserved | src/usbipserver.rs:70-81 | written, pending, queued and remaining packets are the packets of the frames taken; with the unsent tail, their bytes are the frames' blocks |
| MainLoop.BootsFirst | src/usbipserver.rs:51-102 | over every run from power-on: the pump is in its normal state exactly from the second accepted notification on, and before that nothing is read or written |
| MainLoop.QueueSizes | src/usbipserver.rs:54-55 | a push to the USB queue is refused exactly when eight packets wait; each frame queue holds one frame |
| MainLoop.RunSafe | src/main.rs:261-272 | a run fed from any stream the receive machine survives, with no empty frame, panics exactly when a turn of the stack does |
| MainLoop.PanicsOnlyInStack | src/main.rs:261-272 | on traffic of blocks readable where they lie, and junk, a run panics exactly when a turn of the stack does, and the frames decoded are the first ones of the blocks |
| MainLoop.StandardTrafficIsSafe | src/main.rs:261-272 | the same on plain NCM 1.0 blocks with frames of up to 576 bytes, by the frames of NCM 1.0 |
| MainLoop.HaltsOnTraffic | src/main.rs:261-272 | no run gets past traffic with a block that is not readable where it lies |
| Firmware.Firmware.NetworkTurn | src/ncm_netif.rs:32-88 | the network stack takes frames from one queue and adds frames to the other, losing those that find it full |
| Firmware.Firmware.RunDhcpServer | src/server.rs:208-224 | run_dhcpserver on the object, with the count of replies the socket holds; the unwrapped send does not fail |
| Firmware.Firmware.EthTask | src/server.rs:230-239 | the stack's turn, the web server's call and the DHCP server's, in order, on the objects |
| Firmware.Firmware.Iteration | src/main.rs:264-267 | the objects' methods called in the order of main make exactly one iteration of the model |
| Firmware.RunMain | src/main.rs:259-272 | the objects, created and looped, end in the state of the model's run, servers included, and have written its packets |
| Servers.DhcpPanicsExactly | src/server.rs:208-224 | with a socket buffer of 380 bytes one reply is held at most, and a message panics exactly when recv does or when it asks for a lease while a reply is unsent |
| Servers.SecondReplyHalts | src/server.rs:127-130 | two messages that ask for a lease, with nothing sent in between, halt the firmware |
| Servers.ServersAreIndependent | src/server.rs:230-239 | a run of turns panics exactly when the web server's or the DHCP server's own run does, and leaves them where those do |
| Servers.DhcpRunExactly | src/server.rs:208-224 | the DHCP calls follow the history of messages, and panic exactly when that does or two messages ask for a lease with nothing sent between them |
| Servers.FirmwareHaltsExactly | src/main.rs:261-272 | fed from a stream the receiver survives, with no empty frame, the firmware halts exactly when the web server's run panics, a DHCP message is unreadable or finds no address, or two messages ask for a lease with nothing sent between them |
| Link.EndToEnd | src/main.rs:261-272 | two devices back to back halt exactly when a turn of a stack panics, and each decodes a prefix of the frames the other sent, all of them once it has read everything |
| Link.StacksReceiveAll | src/ncm_netif.rs:8-9 | with stacks that return and take a frame whenever there is one, the one-slot queue loses nothing |
| Delivery.OwedLowers | src/main.rs:261-272 | with a set of accepted frames in mind, no iteration raises what is owed to them and one that finds the endpoint ready lowers it, whatever is read, sent or taken |
| Delivery.AllAcceptedIsWritten | src/main.rs:261-272 | after any booted run, and any continuation that does not halt, once the endpoint has been ready as often as a computed potential of at most 90, the packets of every frame accepted by then have been written first; and nothing else if no more was accepted |
| Delivery.SafeDelivery | src/main.rs:261-272 | after any run, a continuation fed from a stream the receiver survives, with no empty frame, halts exactly when a turn of the stack panics, and otherwise 90 ready iterations are enough |
| Delivery.ReadIsSafe | src/main.rs:261-272 | what a run has read is a stream the receiver survives |
| LinkDelivery.StreamDecodes | src/ncm_api.rs:237-402 | the packets of frames that have all been pushed decode to exactly these frames |
| LinkDelivery.DeliveredWithin | src/main.rs:261-272 | in either direction and under every interleaving: after 90 ready iterations of a booted sender, and then as many iterations of the booted receiver that find a packet as packets are missing, the receiver has decoded every frame the sender had accepted |
| DhcpCodec.LayoutRoundTrip | src/dhcp.rs:148-190 | parsing a message of at least 240 bytes and serialising it gives its first 308 bytes, zero-padded if shorter |
| DhcpCodec.MessageRoundTrip | src/dhcp.rs:148-190 | a serialised message parses back to itself |
| DhcpCodec.ConvOptionsToBytes | src/dhcp.rs:88-97 | the encoder appends the first 2+len bytes of every option |
| DhcpCodec.OptionsRoundTrip | src/dhcp.rs:88-123 | reading back encoded options one at a time recovers the list and what follows it |
| DhcpCodec.OptionsSize | src/dhcp.rs:88-97 | the encoded size is the sum of 2+len |
| Dhcp.DhcpServer.LeaseAddress | src/dhcp.rs:290-314 | create_lease on the object's fields; "two ips to 1 mac" is not reached |
| Dhcp.DhcpServer.CreateDhcpReply | src/dhcp.rs:221-288 | the reply built in the source's order, with the lease |
| Dhcp.DhcpServer.Receive | src/dhcp.rs:203-219 | recv on the object's fields |
| DhcpLeases.ServeAll | src/server.rs:218 | any list of messages handed to recv one after the other leaves the state and the replies of the model's history |
| Dhcp.RecvCases | src/dhcp.rs:203-219 | an unreadable message panics, a message that asks for no lease changes nothing and gets no reply, the others depend on the lease alone |
| DhcpStandard.ReadableExactly | src/dhcp.rs:30-63 | recv can read a message exactly when it has 243 bytes, a known code at byte 240, a length of 1 to 4 at 241 and a type of 1 to 8 at 242, and takes it for that type |
| DhcpStandard.RecvByBytes | src/dhcp.rs:203-219 | by the bytes: type 1 gets an Offer, type 3 an Ack, with the lease of the client at bytes 28 to 33, or panics if there is none; types 2 and 4 to 8 get nothing and change nothing; every other message panics |
| Dhcp.ReplyOptionsSize | src/dhcp.rs:222-278 | the options of a reply with the end marker take 34 of the 68 bytes |
| Dhcp.ReplyIsArea | src/dhcp.rs:225-278 | the option area of a reply byte by byte: message type, subnet mask, router, server id, lease time, name server, end marker, zeros |
| Dhcp.LeaseTimeByteOrder | src/dhcp.rs:258-262 | the lease time is 86400 read little-endian and 2152792320 read in network order |
| Dhcp.ReplyChangesOnly | src/dhcp.rs:279-286 | a reply differs from its request only in op, secs, flags, yiaddr and options, which are a boot reply, zero, zero, the lease, and that option area; the decoder reads the six options back |
| DhcpLeases.LeaseRefines | src/dhcp.rs:290-314 | create_lease is the map by first appearance, and fails exactly when a new client finds no address left |
| DhcpLeases.RecvRefines | src/dhcp.rs:203-219 | the same for one message, with its reply |
| DhcpLeases.LeaseMapRefinement | src/dhcp.rs:203-314 | over every history the table is the clients in order of first appearance with its count, and every reply carries its client's address in the final table |
| DhcpLeases.AddressesIdentifyClients | src/dhcp.rs:304-312 | different clients have different addresses |
| DhcpLeases.OfferAckAgreement | src/dhcp.rs:203-219 | in every interleaving two replies carry the same address exactly when they answer the same client, so an Ack agrees with every earlier Offer |
| DhcpLeases.HaltsExactlyWhenFull | src/dhcp.rs:304-307 | over readable messages the server halts exactly when more clients have asked than addrstart leaves addresses |
| DhcpLeases.MaxaddrHoldsExactly | src/dhcp.rs:290-314 | all addresses of the map stay at or below maxaddr exactly when no more clients asked than the range holds |
| DhcpStandard.TypeReadRightly | src/dhcp.rs:208-210 | a message is taken for the message type RFC 2132 gives it exactly when its first option is code 53 of length 1, or another option whose first data byte equals the value of the message type after it |
| DhcpStandard.CodeIsIgnored | src/dhcp.rs:203-219 | over all known codes of the first option recv does the same: reply, lease and panic |
| DhcpStandard.ReadableCodeIsIgnored | src/dhcp.rs:203-219 | a readable message can have any known code there, and recv does the same |
| DhcpStandard.HostnameGetsOffer | src/dhcp.rs:203-219 | a message whose only option is a host name has no message type, and is answered with an Offer and given a lease |
| DhcpStandard.RangeHoldsExactly | src/dhcp.rs:203-314 | over every history all addresses in the replies stay at or below maxaddr exactly when no more clients asked than the range holds |
| DhcpStandard.AddressesInOrder | src/dhcp.rs:203-314 | Discover messages of different clients, no more than there are addresses, are answered with the addresses from addrstart on, in order |
| DhcpStandard.MaxaddrIgnored | src/server.rs:144-151 | configured with 5 and 128, after a Discover from each of 125 clients the last reply gives address 129 |
| DhcpStandard.GivenExactly | src/dhcp.rs:203-314 | over every history the addresses given out are exactly those from addrstart on, one for each client that asked |
| DhcpStandard.UnusableGivenExactly | src/dhcp.rs:203-314 | the broadcast address of a /24 network is given out exactly when 256 - addrstart clients have asked, the server's own exactly when it lies in the range given |
| DhcpStandard.BroadcastIsGiven | src/server.rs:144-151 | with addresses from 5 on, the 251st client is given the broadcast address |
| Http.CarriageReturnIrrelevant | src/http.rs:93-101 | the carriage return that lines() strips does not change the words of the first line |
| HttpFormat.WrittenIsParsed | src/http.rs:90-119 | a request written out -- GET or POST, a path of visible characters, the version, any header lines, a blank line, any body -- parses to exactly that method, path and body |
| HttpFormat.WrittenBytesAreParsed | src/http.rs:90-119 | the same from its bytes |
| HttpFormat.EncodedIsDecoded | src/http.rs:91 | every text is decoded from its UTF-8 encoding |
| HttpFormat.DecodedIsEncoded | src/http.rs:91 | what decodes is the UTF-8 encoding of the text, byte for byte |
| Http.CompleteExactly | src/http.rs:90-119 | a text parses to a request exactly when its first line has a supported method and a second word and a blank line ends its headers; the request is made of these and the rest |
| Http.PrefixParses | src/http.rs:90-110 | what every prefix of such a text does: panic, unsupported, parse error, or the one method and path with the body so far |
| Http.AsciiPrefix | src/http.rs:91 | on ASCII bytes decoding is the identity, on every prefix |
| Server.TcpServer.RunWebserver | src/server.rs:180-205 | one call on rxbytes and msgtosend: send, keep the unsent tail, then receive and parse only when nothing is unsent |
| Server.RunCalls | src/server.rs:230-239 | a new server after any calls is in the state of the model's run, has sent its bytes and made its receives |
| Server.StepShape | src/server.rs:180-205 | one call accepts exactly as many bytes as the socket takes, or all there are, and keeps the rest; it receives exactly when everything is accepted and there is something; it loses no byte of the request, and an answer is the handler's response to what was parsed |
| Server.AcceptedIsTaken | src/server.rs:180-185 | over every run the number of bytes accepted is the sum of the socket's own counts |
| Server.ResponsesConserved | src/server.rs:180-205 | over every run the bytes accepted, then msgtosend, are the responses in order; the bytes read are the requests answered, then rxbytes |
| Server.ReadsOnlyWhenSent | src/server.rs:187 | no request byte is read while a response byte is unsent |
| Server.Drains | src/server.rs:180-185 | however few bytes each send takes, a response of n bytes has been accepted whole after n sends |
| WebRequests.RunAccumulates | src/server.rs:180-205 | whatever a run sends and however often it idles, its pending bytes and answers are the fold of its receives |
| WebRequests.SegmentsExactly | src/server.rs:187-205 | every way of cutting an ASCII request up to the receive that completes its headers halts the firmware exactly when one of its receives is fatal, and otherwise gives one answer, at that receive |
| WebRequests.SegmentationIndependence | src/server.rs:187-205 | from any moment without pending bytes, with sends and idle calls anywhere: the server keeps the bytes of an ASCII request while its headers are incomplete; the next receive halts the firmware exactly when it ends between method and path or completes the headers for a handler that panics, and is otherwise answered exactly when it completes them |
| WebRequests.BodyIsWholeExactly | src/http.rs:103-104 | method and path do not depend on the cut; the body is whole exactly when the last byte has arrived |
| WebRequests.AnsweredOneForOne | src/server.rs:187-205 | the receives of a sequence of requests give one answer to each, whole and in order, exactly when none goes beyond the request it starts in, one that ends short of it leaves its headers incomplete, and none is fatal |
| WebRequests.RequestsAnswered | src/server.rs:180-205 | the same over every run from a moment without pending bytes |
| WebStuck.StuckForEver | src/server.rs:191-203 | once the pending bytes are stuck, no later call of any run is answered or panics: they start with a text whose first word is complete and no method or begins none, or with a text followed by bytes that begin no character or only characters that make it so |
| WebStuck.StuckExactly | src/http.rs:90-103 | for all bytes on which the server waits: nothing that follows makes them a request exactly when they are stuck or start with a first line that has ended with a method alone; otherwise one receive can |
| WebStuck.SpoilsExactly | src/http.rs:91-98 | in terms of the bytes: bytes that do not decode spoil the text before them exactly when they begin no character, or the first word is not complete and they begin no space after a method or before the first word |
| WebStuck.LateBytesStick | src/server.rs:191-203 | a receive of such bytes with nothing pending silences the server for good |
| WebStuck.TwoBytesStick | src/http.rs:96-98 | the letter A and a space are enough, whatever follows them |
| WebStuck.BrokenCharacterSticks | src/http.rs:91 | the bytes C2 41 are enough, whatever follows them |
| WebStuck.DecodeConcat | src/http.rs:91 | bytes that decode go on decoding to the same text whatever follows, and the whole decodes exactly when the rest does |
| Handlers.ColourExactly | src/server.rs:77-79 | a body has a colour exactly when it begins with one one-byte character and three pairs of hexadecimal digits in either case, the first of a pair being a plus sign at will |
| Handlers.ColourRoundTrip | src/server.rs:77-79 | a colour written in either case is read back |
| Handlers.PostAnswers | src/server.rs:73-87 | a POST to /rgb panics without a colour and is answered with status 200 with one, to every other path with status 404 |
| Handlers.CallbackByMethod | src/http.rs:112-118 | the method POST goes to that handler and nothing else does |
| Handlers.HandlerPanicsExactly | src/server.rs:73-87 | the handlers panic exactly on a POST to /rgb when fewer than seven bytes of its body have arrived or the body has no colour |
| Handlers.FatalExactly | src/server.rs:73-87 | which receives of an ASCII request halt the firmware: those that end between method and path; and of a colour request the one that completes the headers, unless it brings seven bytes of a body with a colour |
| Handlers.BarePostHalts | src/server.rs:73-87 | POST /rgb and a blank line, received alone with nothing pending, halts the firmware after every run |

## Left out

- USB descriptors, control requests and the bytes of the notifications (`src/cdc_ncm.rs`): fixed tables and library calls.
- Polling the USB device and resetting endpoints: an endpoint read or write is an input that succeeds or not.
- The network stack, TCP state and listening, UDP addressing (`src/server.rs:166-178`): smoltcp is not part of this model. Its panics, and those of its socket calls and tokens, are turns of the stack that panic; of these `Servers` derives the web server's, the DHCP server's and the full reply buffer's.
- The contents of the GET responses, and what a colour does to the LED: the GET handler is any total function from requests to bytes; files and statistics cannot make it panic.
- The release profile, in which overflowing arithmetic wraps instead of panicking.
- Empty frames on the way to the host are modelled up to the panic they cause; the loopback results are about non-empty frames.
- Clocks, timers, LEDs, temperature, logging, heap and linker set-up (`src/main.rs`).
- WebRequests.SegmentationIndependence: requests whose text is not ASCII are parsed by the model, but a receive may cut a character and the result is stated for ASCII only; WebRequests.AnsweredOneForOne likewise.
- NcmRx.Reassembles: a first packet that holds more than its block is not covered there, because it halts the firmware (see NcmRx.FirstPacketDecides).
- The growth of rxbytes on a server that is never answered again: memory is unbounded here.
- Closing of the queues: nothing in the firmware closes them.
