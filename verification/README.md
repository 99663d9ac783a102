# libprotoserial, verified

A Dafny model of the library's data path and of the laws it is built on: the over-allocating byte
container, the framed byte link (ring buffer, incremental parser, serializer), the interface's transmit
queue, fragmentation and reassembly, transfer ids, ports, and the `kiss_protocol`.

`dafny verify dfyconfig.toml` checks the whole project.

## How it is laid out

Objects that the library updates in place are classes (`Bytes`, `BufferedParserInterface`,
`VirtualInterface`, `TransferHandler`, `BaseFragmentationHandler`, `Factory`, `KissProtocol`,
`PortsHandler`, `BypassHandler`). Each of their methods states its complete new state as a function of the
old one; what the library promises is proved about those functions, over all inputs and over whole runs.

| file | what it is about |
|---|---|
| `Prelude.dfy` | bytes, options, sequence facts |
| `Container.dfy`, `Bytes.dfy` | the container's memory as a value and its operations; the container itself |
| `LinkFrame.dfy`, `LinkStream.dfy`, `LinkRoundTrip.dfy` | frames, the reference decoder of a whole history, the round trip |
| `LinkMachine.dfy` | the receiver as a state machine over the history, and its runs |
| `Ring.dfy`, `Buffered.dfy` | circular iterators; the ring buffer and `do_receive` |
| `Serializer.dfy`, `TxQueue.dfy`, `VirtualInterface.dfy` | `serialize_fragment`, the transmit queue, the virtual interface |
| `IdFactory.dfy` | transfer ids |
| `Transfer.dfy`, `Reassembly.dfy`, `TransferHandler.dfy` | cutting data up and putting it together |
| `Fragmentation.dfy`, `BaseHandler.dfy` | the handler's list of transfers: its runs, and the list of objects |
| `Kiss.dfy`, `KissProtocol.dfy`, `KissSystem.dfy` | the acknowledge-and-retry protocol: a node, the object, two nodes and a channel |
| `Ports.dfy`, `Stack.dfy` | ports and services; the layers on top of each other |

The link is described by its history: byte `k` of everything ever put lies in slot `k mod N` of the ring, and
position 0 is the zero that the ring starts with. The read iterator is a position that never decreases, even
when the writer laps it. This makes soundness provable for every run, and equality with the reference
decoder for every run in which the unread backlog stays below the size of the ring; after an overflow this
equality starts afresh with the next call (`RecoversAfterOverflow`).

The checksum is a parameter, a function from byte sequences to four bytes about which nothing is assumed.

## Where the code keeps less than it seems to promise

Each of these is proved in both directions, or with a concrete input.

- A complete frame can be withheld. The parser takes the first of the two preamble bytes for a frame start
  as well; when the header read one byte early happens to be valid, the parser waits for as many bytes as it
  announces. `RoundTrip` says exactly which frames are affected, `AFrameCanBeWithheld` shows one.
- `is_valid` takes its bound as a byte, and the header's size and address fields are bytes. Whatever the largest
  data size, a fragment arrives as it was sent if and only if its addresses are different bytes and it has
  between one and as many data bytes as the low byte of the largest data size (`FrameParsesExactlyWhen`,
  `RoundTrip`). With a largest data size of 300 the sender takes 300 bytes and the receiver takes their header,
  and nothing that ever arrives decodes to them (`LongDataIsCut`).
- The count of loaded bytes is right exactly when the 32-bit counter did not wrap (`LoadedIsExactWithoutWrap`).
- `writable_count` wraps to the largest unsigned number when the queue is full (`WritableCountIsHonestExactlyWhen`).
- Copy assignment can drop bytes and leave old ones hidden (`AssignCopiesExactlyWhen`, `AssignCanTruncate`).
- An outgoing transfer of 256 fragments or more loses data, because the count is a byte (`OutgoingCoversExactlyWhen`),
  although the comment beside the fields says that the size bound always holds.
- Ports are wider than the header's fields: a port of 256 or more cannot be reached, and `get_free_port` hands
  out such ports: what it returns can be reached if and only if one of 100 to 255 was still free
  (`PacketArrivesExactlyWhen`, `FreePortIsReachedExactlyWhen`, `FreePortCanBeUnreachable`).
- `kiss_protocol::main_task` passes over the packet behind one that it erases. Of each gapless run of packets
  that are due for removal it erases every other one, up to the packet that it sends again (`SweepIs`); no
  due packet is left if and only if no two neighbours were due up to there, none is behind, and what was sent
  is not itself due at once (`OneCallClearsExactlyWhen`).
- An 8-bit packet id comes round again while its last packet, a copy of it or an acknowledgement is still
  about, and then a packet can be removed that the peer never saw. `ReuseIsSafeExactlyWhen` says for which new
  packets, in any state that satisfies the invariant, this cannot happen over any continuation in which
  further new packets are of that kind too; when it can happen, it does so with a clock that never goes back.
  `StaleAckRemovesNewPacket` and `StaleAckIsReachable` show the simplest case.
- Incoming transfers are never purged and transfer ids recur, so new fragments are put over an old transfer with
  the same key. Once all of them have arrived the data has come out right if and only if it `Survives`
  (`StaleTransferIsOverwritten`, `TransfersCross`): when the last piece fits into what the old transfer ended
  with, the pieces must have the old size; when it does not, the old data must have been as long, and its bytes
  and those of the pieces that were taken, at the old distances, must be right by accident, which takes another
  piece size (`AccidentNeedsOtherSize`).

## Model

| member | source | states |
|---|---|---|
| `Container.RunRefinesPlain` | include/libprotoserial/data/container.hpp:194-317 | after any run of reserve, expand, shrink, set and pushes the container exposes what the same operations make of a plain sequence, stays inside its allocation and hides only zeros |
| `Container.ApplyRefines` | include/libprotoserial/data/container.hpp:194-317 | each single operation does the same, for every layout that hides only zeros |
| `Container.ExpandShowsZeros` | include/libprotoserial/data/container.hpp:194-201 | an expansion shows exactly zeros in front of and behind the old bytes, in the same allocation when the margins suffice |
| `Container.ReserveKeeps` | include/libprotoserial/data/container.hpp:202-231 | a reservation never changes the exposed bytes and provides the margins asked for, exactly those when one was missing |
| `Container.ShrinkShows` | include/libprotoserial/data/container.hpp:232-266 | a shrink leaves the middle, or nothing when more is asked for than there is, zeroes what it hides, and moves the start only in the first case |
| `Container.SetShows` | include/libprotoserial/data/container.hpp:306-317 | setting a range reaches the exposed positions only, up to where the range check stops it |
| `Container.AssignCopiesExactlyWhen` | include/libprotoserial/data/container.hpp:114-125 | copy assignment reproduces its source if and only if the capacity differs from the source's size or the whole capacity was exposed |
| `Container.AssignCanTruncate` | include/libprotoserial/data/container.hpp:114-125 | a concrete target for which assignment drops bytes and leaves an old byte in the hidden part |
| `BytesContainer.Bytes.constructor` | include/libprotoserial/data/container.hpp:70-79 | a new container exposes zeros between the margins asked for |
| `BytesContainer.Bytes.Reserve` | include/libprotoserial/data/container.hpp:204-231 | the in-place method computes the reservation of its layout and keeps its allocation when the margins suffice |
| `BytesContainer.Bytes.Expand` | include/libprotoserial/data/container.hpp:196-201 | computes the expansion of its layout; zeros appear on both sides |
| `BytesContainer.Bytes.Shrink` | include/libprotoserial/data/container.hpp:234-266 | computes the shrinking of its layout in the same allocation |
| `BytesContainer.Bytes.Set` | include/libprotoserial/data/container.hpp:312-317 | computes the filled layout and reports whether the range check stopped it |
| `BytesContainer.Bytes.Write` | include/libprotoserial/data/container.hpp:267-283 | the copy loops replace exactly the bytes from a position on |
| `BytesContainer.Bytes.PushFront` | include/libprotoserial/data/container.hpp:267-272 | puts bytes in front of the exposed ones, without reallocation when there is margin |
| `BytesContainer.Bytes.PushBack` | include/libprotoserial/data/container.hpp:278-283 | puts bytes behind the exposed ones, without reallocation when there is margin |
| `BytesContainer.Bytes.At` | include/libprotoserial/data/container.hpp:172-181 | the checked access yields the exposed byte, or nothing outside |
| `BytesContainer.Bytes.Assign` | include/libprotoserial/data/container.hpp:114-125 | the in-place copy assignment, with the exact condition under which it copies |
| `BytesContainer.Bytes.MoveFrom` | include/libprotoserial/data/container.hpp:127-144 | a move takes over the allocation and leaves an empty container |
| `LinkFrame.ParseInvertsFrame` | include/libprotoserial/interface/parsers.hpp:33-56 | parsing the block of a serialized fragment returns that fragment, if its addresses are different bytes and its data is within the bound that the header check uses |
| `LinkFrame.FrameLayout` | include/libprotoserial/interface/buffered.hpp:338-364 | byte by byte, the frame of any fragment: two preamble bytes 0x55, the low bytes of destination, source and size, the low byte of their sum, the data, and the checksum of all that lies between preamble and checksum |
| `LinkFrame.HeaderAcceptedExactlyWhen` | include/libprotoserial/interface/headers.hpp:42-51 | the peer accepts the header of a fragment if and only if the address bytes differ and the low byte of the size is non-zero and at most the low byte of the largest data size |
| `LinkStream.DecodeIsMonotone` | include/libprotoserial/interface/buffered.hpp:240-330 | decoding a longer history only appends deliveries |
| `LinkStream.TryIsStable` | include/libprotoserial/interface/buffered.hpp:246-331 | a decision about a preamble byte is never changed by later bytes |
| `LinkStream.WaitingIsBounded` | include/libprotoserial/interface/buffered.hpp:256-328 | a parser that waits has decided after fewer than max_fragment_size further bytes |
| `LinkStream.Resynchronises` | include/libprotoserial/interface/buffered.hpp:240-329 | an intact frame behind any bytes is delivered unless an accepted frame jumps over its start |
| `LinkStream.TryInBytes` | include/libprotoserial/interface/buffered.hpp:246-331 | how a preamble is decided, in the bytes of the history alone: which header is refused and passed over, what is waited for, and what is accepted |
| `LinkStream.BadHeaderIsPassed` | include/libprotoserial/interface/headers.hpp:48-51 | a complete header whose fourth byte is not the low byte of the sum of the other three is passed over at once |
| `LinkStream.AcceptIsAuthentic` | include/libprotoserial/interface/buffered.hpp:263-283 | what is accepted is, byte by byte, a slice of the history with preamble, two different addresses, a size in range, their sum, exactly that many data bytes and the matching checksum |
| `LinkStream.AuthenticIsAccepted` | include/libprotoserial/interface/buffered.hpp:256-283 | conversely every such slice passes all tests |
| `LinkRoundTrip.RoundTrip` | include/libprotoserial/interface/buffered.hpp:246-364 | the frames of any list of fragments, for any configuration, decode to that list if and only if every fragment is sendable and no frame is shadowed by its early header |
| `LinkRoundTrip.FrameParsesExactlyWhen` | include/libprotoserial/interface/buffered.hpp:246-364 | behind its preamble, in any context, the frame of any fragment is accepted as that fragment if and only if the addresses are different bytes and the data is non-empty and within the low byte of the largest data size |
| `LinkRoundTrip.DecodedIsSendable` | include/libprotoserial/interface/headers.hpp:42-51 | conversely no bytes whatever decode to any other fragment |
| `LinkRoundTrip.LongDataIsCut` | include/libprotoserial/interface/headers.hpp:42-51 | with a largest data size of 300, 300 bytes pass the sender's check and the header check, and are never delivered |
| `LinkRoundTrip.OneFrame` | include/libprotoserial/interface/buffered.hpp:246-317 | one frame in any context, also behind a byte that looks like a preamble: delivered, or withheld when shadowed |
| `LinkRoundTrip.PreamblesArePassed` | include/libprotoserial/interface/headers.hpp:48-51 | a last checksum byte equal to the preamble does not hide the frame behind it |
| `LinkRoundTrip.UnambiguousIsNeverShadowed` | include/libprotoserial/interface/headers.hpp:42-51 | a fragment whose destination is the preamble byte, whose source is not a size, or whose size is not the low byte of 0x55 plus its addresses is never shadowed |
| `LinkRoundTrip.AFrameCanBeWithheld` | include/libprotoserial/interface/buffered.hpp:294-306 | a concrete sendable fragment whose complete frame is not delivered, whatever the checksum |
| `LinkRoundTrip.APlainFrameArrives` | include/libprotoserial/interface/headers.hpp:48-51 | a concrete fragment whose source looks like a size and that is delivered, because the check byte of the early header is wrong |
| `LinkMachine.EveryRunIsSound` | include/libprotoserial/interface/buffered.hpp:66-336 | in every run, overflow and lapping included, deliveries are authentic, disjoint and in increasing order |
| `LinkMachine.DeliveriesArePrefix` | include/libprotoserial/interface/buffered.hpp:213-336 | without lapping the deliveries are at any time a prefix of what the reference decoder finds, and all of it once a call moves nothing |
| `LinkMachine.RunRefinesDecode` | include/libprotoserial/interface/buffered.hpp:213-336 | what was delivered, followed by decoding from the read position on stays the same over every schedule without lapping, from any state and for any continuation of the history |
| `LinkMachine.EnoughCallsDeliverEverything` | include/libprotoserial/interface/buffered.hpp:213-336 | after as many calls as bytes everything decodable has been delivered, however the bytes were split between calls |
| `LinkMachine.CallsDrain` | include/libprotoserial/interface/buffered.hpp:213-336 | repeated calls reach the end of the backlog, since each one that is not the last moves the read position |
| `LinkMachine.FramesArriveExactlyWhen` | include/libprotoserial/interface/buffered.hpp:213-364 | over every schedule without lapping, any fragments framed are the fragments received if and only if all are sendable and none is shadowed |
| `LinkMachine.IntactFrameArrives` | include/libprotoserial/interface/buffered.hpp:240-329 | an intact frame after arbitrary noise has been delivered after enough calls unless a delivered frame reaches past its start |
| `LinkMachine.RecoversAfterOverflow` | include/libprotoserial/interface/buffered.hpp:213-336 | after any run that ends with a call, overflow and lapping included, a schedule without lapping delivers exactly what decoding finds from the read position on; an intact frame from there on is delivered or jumped over |
| `LinkMachine.CallUnlaps` | include/libprotoserial/interface/buffered.hpp:213-236 | every call, whatever preceded it, leaves a state from which refinement holds again |
| `LinkMachine.OverflowDropsEverything` | include/libprotoserial/interface/buffered.hpp:222-236 | when at least a ring full of bytes has come since the last call and the counter has not wrapped, a call delivers nothing and leaves no backlog |
| `LinkMachine.ReceivedIsHonest` | include/libprotoserial/interface/buffered.hpp:213-229 | over every run of less than 2^32 bytes the received-bytes counter is the number of bytes that had come at the last call |
| `LinkMachine.NoFalseOverflow` | include/libprotoserial/interface/buffered.hpp:222-236 | without lapping the overflow test stays silent, also when the byte counter wraps |
| `LinkMachine.LoadedIsExactWithoutWrap` | include/libprotoserial/interface/buffered.hpp:222-227 | the number of loaded bytes is right if and only if the 32-bit counter did not wrap since the last call |
| `LinkMachine.LoadedAcrossWrap` | include/libprotoserial/interface/buffered.hpp:222-227 | when the counter has wrapped once, the number of loaded bytes is the truth value of more bytes having come than the ring has slots |
| `LinkMachine.ScanIsSound` | include/libprotoserial/interface/buffered.hpp:240-331 | one call delivers at most one authentic slice between the old and the new read position |
| `LinkMachine.ScanRefinesDecode` | include/libprotoserial/interface/buffered.hpp:240-331 | one call takes exactly the first delivery off the decoding of any longer history |
| `LinkMachine.QuietScanIsDone` | include/libprotoserial/interface/buffered.hpp:240-334 | a call that moves nothing has nothing to find |
| `Ring.SlotShift` | include/libprotoserial/interface/buffered.hpp:91-110 | the iterator's single-wrap addition moves a position's slot to that of the sum |
| `Ring.DistanceIsDifference` | include/libprotoserial/interface/buffered.hpp:112-118 | iterator distance is the difference of positions within one turn, and zero only for equal positions |
| `Ring.MirrorsAfterPut` | include/libprotoserial/interface/buffered.hpp:155-170 | a put keeps the newest bytes of the history in their slots |
| `Buffered.ParseFragment` | include/libprotoserial/interface/parsers.hpp:33-56 | the in-place parser returns what the block means, by header, checksum and shrinking |
| `Buffered.BufferedParserInterface.constructor` | include/libprotoserial/interface/buffered.hpp:58-62 | the ring starts as zeros with both iterators at its first slot; the object is usable if and only if the ring takes the largest fragment and that has room for a data byte |
| `Buffered.BufferedParserInterface.PutSingleReceived` | include/libprotoserial/interface/buffered.hpp:155-170 | the in-place put is the machine's put |
| `Buffered.BufferedParserInterface.Find` | include/libprotoserial/interface/parsers.hpp:58-68 | finds the first matching byte before the end, or stops at the end |
| `Buffered.BufferedParserInterface.ByteCopy` | include/libprotoserial/interface/parsers.hpp:71-79 | the byte-by-byte copy out of the ring is the slice of the history |
| `Buffered.BufferedParserInterface.TryFrame` | include/libprotoserial/interface/buffered.hpp:246-306 | the iterator arithmetic decides a preamble as the reference decoder does |
| `Buffered.BufferedParserInterface.ParseAt` | include/libprotoserial/interface/buffered.hpp:265-284 | the copied block has exactly the fragment's size and parses as its slice of the history |
| `Buffered.BufferedParserInterface.Parse` | include/libprotoserial/interface/buffered.hpp:238-334 | the loop terminates and leaves the read iterator where the machine does |
| `Buffered.BufferedParserInterface.DoReceive` | include/libprotoserial/interface/buffered.hpp:213-336 | one call is one step of the machine; the event is the delivered fragment, its own if the destination is the address, else a broadcast if it is the broadcast address, else other; the result is the backlog |
| `Serializer.SerializeFragment` | include/libprotoserial/interface/buffered.hpp:338-364 | for any offset and capacity the result is preamble, header, data and checksum, in the same allocation when the margins are those of minimum_prealloc |
| `TxQueue.RunConserves` | include/libprotoserial/interface/interface.hpp:66-106 | over every schedule, what was handed over followed by what is queued is, in order, the frames of exactly those fragments that fit and were submitted with at most max_queue_size waiting, counted from the schedule alone; the byte counter is the total size handed over |
| `TxQueue.StepConserves` | include/libprotoserial/interface/interface.hpp:66-106 | the same for each transmit and each main_task |
| `TxQueue.QueueFills` | include/libprotoserial/interface/interface.hpp:94-106 | an idle interface queues exactly the first max_queue_size plus one of any number of fragments that fit, as frames with its own address |
| `TxQueue.WritableCountIsHonestExactlyWhen` | include/libprotoserial/interface/interface.hpp:106-107 | writable_count promises no more room than there is if and only if the queue is writable; one entry later it wraps |
| `VirtualInterfaces.VirtualInterface.Transmit` | include/libprotoserial/interface/interface.hpp:94-104 | serializes and queues a fragment, or drops it when it fails the checks |
| `VirtualInterfaces.VirtualInterface.MainTask` | include/libprotoserial/interface/interface.hpp:66-90 | one receive step with its event on the channel that address and broadcast address decide, then one queued frame to the wire with its confirmation |
| `VirtualInterfaces.VirtualInterface.GetSerialized` | include/libprotoserial/interface/testing/virtual.hpp:50-61 | frames are fetched in the order they were handed over, each once |
| `VirtualInterfaces.VirtualInterface.PutSerialized` | include/libprotoserial/interface/testing/virtual.hpp:72-76 | feeding a block is feeding its bytes one by one |
| `IdFactory.IdsCycle` | include/libprotoserial/fragmentation/id_factory.hpp:49-70 | the n-th id of an interface has low byte (n-1) mod 255 + 1, whatever is asked for other interfaces and also across the 32-bit wrap |
| `IdFactory.IdsCollideExactlyWhen` | include/libprotoserial/fragmentation/id_factory.hpp:49-70 | two ids of one interface share their low byte if and only if a multiple of 255 calls for it separates them |
| `IdFactory.NewIdIsPerInterface` | include/libprotoserial/fragmentation/id_factory.hpp:58-70 | a call advances one interface's counter and no other |
| `IdFactory.NthIncrements` | include/libprotoserial/fragmentation/id_factory.hpp:49-54 | the increment passes over the values whose low byte is zero, also at the wrap |
| `IdFactory.Factory.NewId` | include/libprotoserial/fragmentation/id_factory.hpp:58-70 | the list search and update issue the id that the specification says |
| `Transfers.HeaderRoundTrip` | include/libprotoserial/fragmentation/headers.hpp:46-66 | a header is read back as made, and is valid if and only if the fragment number is in range and the id is set |
| `Transfers.OutgoingStarts` | include/libprotoserial/fragmentation/transfer_handler.hpp:83-96 | what an outgoing transfer starts with: the fields it was given, the count as a byte, nothing sent, and every request refused |
| `Transfers.PutKeepsWellSized` | include/libprotoserial/fragmentation/transfer_handler.hpp:340-344 | every put keeps the data between total-1 and total fragments long, and changes nothing in an outgoing transfer |
| `Reassembly.ReassemblesExactlyWhen` | include/libprotoserial/fragmentation/transfer_handler.hpp:65-196 | after any puts in any order with duplicates the receiver holds the original data if and only if each missing piece is all zeros of the assumed size; in particular when nothing is missing |
| `Reassembly.PutAddsPiece` | include/libprotoserial/fragmentation/transfer_handler.hpp:174-196 | a put adds exactly its piece, for the first time or again, also when the last piece comes early and settles the size |
| `Reassembly.StartHoldsFirst` | include/libprotoserial/fragmentation/transfer_handler.hpp:65-80 | the receive constructor holds the first piece and zeros for the others |
| `Reassembly.OutgoingCoversExactlyWhen` | include/libprotoserial/fragmentation/transfer_handler.hpp:83-96 | an outgoing transfer's fragments tile its data, and max_fragment_size * fragments_total covers it, if and only if the number of fragments fits a byte |
| `Reassembly.OverwritesExactlyWhen` | include/libprotoserial/fragmentation/transfer_handler.hpp:174-196 | over an old transfer with the same piece size and room for the last piece, the new data is there after any puts if and only if each piece that has not arrived is what the old transfer held in its place |
| `Reassembly.PutsMakeExactlyWhen` | include/libprotoserial/fragmentation/transfer_handler.hpp:98-196 | for pieces of any sizes and any puts over any incoming transfer, which data the transfer then holds, byte for byte, in terms of what it held before and of the pieces that have arrived |
| `Reassembly.OverwrittenExactlyWhen` | include/libprotoserial/fragmentation/transfer_handler.hpp:98-196 | for every old transfer, data and piece size, the new data is there once all its pieces have been put if and only if it survives: old piece size and a last piece that fits, or an old transfer of the same length that makes it up, byte for byte, with the pieces that were taken |
| `Reassembly.NeverOverwrites` | include/libprotoserial/fragmentation/transfer_handler.hpp:174-196 | with the old piece size and a last piece that does not fit, or with another piece size and a last piece that fits and has arrived, the new data is not put together by any puts |
| `Reassembly.AccidentNeedsOtherSize` | include/libprotoserial/fragmentation/transfer_handler.hpp:98-107 | surviving by accident takes an old transfer of the same length and pieces of another size |
| `Reassembly.OutgoingSizes` | include/libprotoserial/fragmentation/transfer_handler.hpp:98-107 | for every outgoing transfer, also one whose count was truncated, the computed fragment sizes are those of the slices: full but for the last, which has at least one byte, and none behind it |
| `Reassembly.ChopTiles` | include/libprotoserial/fragmentation/transfer_handler.hpp:88-107 | the pieces tile the data without gap or overlap, only the last may be short, and their number is the computed one |
| `Reassembly.SliceIsPiece` | include/libprotoserial/fragmentation/transfer_handler.hpp:99-132 | the slice found by multiplication is the piece with that number |
| `TransferHandlers.TransferHandler.Receive` | include/libprotoserial/fragmentation/transfer_handler.hpp:65-80 | the in-place receive constructor |
| `TransferHandlers.TransferHandler.Transmit` | include/libprotoserial/fragmentation/transfer_handler.hpp:83-96 | the in-place transmit constructor, with the count truncated to a byte |
| `TransferHandlers.TransferHandler.FragmentSizeOf` | include/libprotoserial/fragmentation/transfer_handler.hpp:98-107 | the size of a fragment of an incoming or outgoing transfer, never negative |
| `TransferHandlers.TransferHandler.PutFragment` | include/libprotoserial/fragmentation/transfer_handler.hpp:174-196 | the in-place copy and late shrink compute the put, or change nothing |
| `TransferHandlers.TransferHandler.RetransmitRequest` | include/libprotoserial/fragmentation/transfer_handler.hpp:198-213 | a request is noted, and reported as noted, if and only if the last fragment was sent and the number is in range |
| `Fragmentation.UnreadableIsIgnored` | include/libprotoserial/fragmentation/base_handler.hpp:70-196 | a fragment without destination, with a short or damaged header, a number out of range, no id or an unknown type changes nothing |
| `Fragmentation.DataGoesToItsTransfer` | include/libprotoserial/fragmentation/base_handler.hpp:82-134 | in the fields of fragment and transfers: data goes to the first incoming transfer with its source, interface, id and total; without one, fragment one starts a transfer |
| `Fragmentation.ResponseGoesToItsTransfer` | include/libprotoserial/fragmentation/base_handler.hpp:135-189 | in the same terms: an acknowledgement erases, and a request marks if that makes sense, the first outgoing transfer to where it comes from with its interface, id and total; nothing else changes |
| `Fragmentation.AckCompletes` | include/libprotoserial/fragmentation/base_handler.hpp:165-185 | the acknowledgement of any fragment by its destination completes an outgoing transfer |
| `Fragmentation.TransfersDoNotMix` | include/libprotoserial/fragmentation/base_handler.hpp:70-134 | each incoming transfer ends up as if only the fragments with its own key had been received |
| `Fragmentation.ReceiveIsLocal` | include/libprotoserial/fragmentation/base_handler.hpp:70-196 | a received fragment, request or acknowledgement changes no incoming transfer but that of its own key |
| `Fragmentation.ReceiveKeepsOrderly` | include/libprotoserial/fragmentation/base_handler.hpp:86-134 | there is at most one incoming transfer per source, interface, id and total |
| `Fragmentation.InterleavedTransfersReassemble` | include/libprotoserial/fragmentation/base_handler.hpp:86-134 | under any interleaving a new transfer is there from its first piece on, and is put together again if and only if each piece that has not arrived since consists of zeros |
| `Fragmentation.StaleTransferIsOverwritten` | include/libprotoserial/fragmentation/base_handler.hpp:86-134 | under a key that an old transfer still has, the transfer holds the new data if and only if the old one and the pieces that have arrived make it up; once all have arrived, if and only if it survives |
| `Fragmentation.RunIsPutAll` | include/libprotoserial/fragmentation/base_handler.hpp:86-134 | over any run a transfer in progress is what the puts of its own pieces, in their order of arrival, make of it |
| `Fragmentation.TransfersCross` | include/libprotoserial/fragmentation/transfer_handler.hpp:83-142 | data cut up by one handler is put together by another, with any order, duplicates and other traffic, under a new key, with destination and ids, or over an old transfer, there if and only if the data survives |
| `BaseHandlers.BaseFragmentationHandler.DoReceive` | include/libprotoserial/fragmentation/base_handler.hpp:70-196 | the list of transfer objects is updated in place as the specification says, and ownership of the arriving container passes to it |
| `BaseHandlers.BaseFragmentationHandler.OnData` | include/libprotoserial/fragmentation/base_handler.hpp:86-134 | a data fragment goes to the first matching transfer, or starts one when it is the first |
| `BaseHandlers.BaseFragmentationHandler.OnResponse` | include/libprotoserial/fragmentation/base_handler.hpp:135-189 | a request marks and an acknowledgement erases the first outgoing transfer it is about |
| `BaseHandlers.BaseFragmentationHandler.DoTransmit` | include/libprotoserial/fragmentation/base_handler.hpp:249-258 | appends an outgoing transfer |
| `Kiss.RetriesAreBounded` | include/libprotoserial/utils/kiss_protocol.hpp:57-199 | over every run no packet is handed to the interface more than max(1, retries_max) times |
| `Kiss.StepCounts` | include/libprotoserial/utils/kiss_protocol.hpp:94-212 | every operation keeps each pending packet's retry counter equal to its transmissions |
| `Kiss.ListDrains` | include/libprotoserial/utils/kiss_protocol.hpp:180-199 | with pings off and nothing new to send, enough spaced calls of main_task empty the list |
| `Kiss.SweepLowersWeight` | include/libprotoserial/utils/kiss_protocol.hpp:180-199 | a call that sees an expired packet lowers the sum of remaining retries plus one over the pending packets |
| `Kiss.SweepIs` | include/libprotoserial/utils/kiss_protocol.hpp:182-199 | for any list, one call erases every other packet of each run of due ones up to the first packet with retries left that it does not pass over, sends that one and leaves what is behind it |
| `Kiss.OneCallClearsExactlyWhen` | include/libprotoserial/utils/kiss_protocol.hpp:180-212 | for any list, no due packet is left if and only if no two neighbours were due in front of the packet sent again, none is behind it and what was sent is not due at once |
| `Kiss.ReceiveInBytes` | include/libprotoserial/utils/kiss_protocol.hpp:94-131 | what a received fragment does, in its bytes: ignored, taken as an acknowledgement, or acknowledged to its sender and raised when its type is a user's |
| `Kiss.TransmitInBytes` | include/libprotoserial/utils/kiss_protocol.hpp:57-178 | what a user's packet becomes: type moved by five, next id, default address, one transmission counted; types above 250 are refused |
| `Kiss.HeadDecides` | include/libprotoserial/utils/kiss_protocol.hpp:62-199 | when the hold-off of the first packet is over and it has retries left, it is sent again with its count raised and its time set, and nothing else is touched |
| `Kiss.HeadIsGivenUp` | include/libprotoserial/utils/kiss_protocol.hpp:72-199 | when it has none left, it is not there afterwards |
| `Kiss.QuietCall` | include/libprotoserial/utils/kiss_protocol.hpp:180-212 | when no hold-off is over, a call does nothing, or exactly one ping when pings are on and the silence has lasted long enough |
| `Kiss.HoldoffIsKept` | include/libprotoserial/utils/kiss_protocol.hpp:69-184 | a packet whose hold-off is not over stays in the list as it is and is not handed over |
| `Kiss.SilenceStartsWith` | include/libprotoserial/utils/kiss_protocol.hpp:94-202 | the silence before a ping is counted from whatever was handed over last, acknowledgements included |
| `Kiss.TransmissionsAreSpaced` | include/libprotoserial/utils/kiss_protocol.hpp:57-212 | over every run and whatever the clock does, two transmissions of one packet are at least the hold-off apart |
| `Kiss.TransmitsIsEmitted` | include/libprotoserial/utils/kiss_protocol.hpp:94-212 | a step logs a transmission if and only if it hands a packet to the interface, and what it hands over is the wire form of the pending packet with the logged serial |
| `KissProtocols.KissProtocol.Receive` | include/libprotoserial/utils/kiss_protocol.hpp:94-131 | the in-place receive with its erasing loop |
| `KissProtocols.KissProtocol.Transmit` | include/libprotoserial/utils/kiss_protocol.hpp:166-178 | the in-place transmit |
| `KissProtocols.KissProtocol.Retry` | include/libprotoserial/utils/kiss_protocol.hpp:182-199 | the loop that erases while iterating is the specified sweep |
| `KissProtocols.KissProtocol.MainTask` | include/libprotoserial/utils/kiss_protocol.hpp:180-212 | sweep, then a ping when nothing was sent again and one is due |
| `KissProtocols.KissProtocol.TransmitPacket` | include/libprotoserial/utils/kiss_protocol.hpp:133-144 | type, id and data in a container that keeps exactly the interface's margins, and the time of the last transmission |
| `KissSystem.AcksAreSound` | include/libprotoserial/utils/kiss_protocol.hpp:94-178 | in every run over a lossy, reordering channel in which new packets are harmless to and unharmed by what still has their id, a received message removes a user packet only after the peer has raised its event since it was created |
| `KissSystem.MovesAreSteps` | include/libprotoserial/utils/kiss_protocol.hpp:94-212 | in the system of two nodes each takes exactly the steps of a node on its own |
| `KissSystem.ChannelConserves` | include/libprotoserial/utils/kiss_protocol.hpp:94-144 | nothing appears in a channel but what was handed over, or leaves it but by delivery or loss |
| `KissSystem.NextKeepsInv` | include/libprotoserial/utils/kiss_protocol.hpp:94-212 | the cross-node invariant is kept by every send, task, delivery and loss |
| `KissSystem.ReuseIsSafeExactlyWhen` | include/libprotoserial/utils/kiss_protocol.hpp:57-212 | in any state that satisfies the invariant and for a positive hold-off, a new packet is harmless if and only if every continuation whose further new packets are harmless and whose clock never goes back removes by received messages only what the peer has raised; if it is harmless the clocks do not matter, and the clauses without a retransmission are needed for any hold-off |
| `KissSystem.RetransmissionHurts` | include/libprotoserial/utils/kiss_protocol.hpp:180-199 | a pending packet that has expired with retries left gets another packet with its id acknowledged, however many packets wait in front of it, at one and the same time |
| `KissSystem.CopyHurts` | include/libprotoserial/utils/kiss_protocol.hpp:94-129 | at any time, a copy in flight gets another pending packet with its id acknowledged |
| `KissSystem.ZeroHoldoffCanSpare` | include/libprotoserial/utils/kiss_protocol.hpp:182-199 | with a hold-off of zero, two calls can give up a new packet without ever sending a packet in front of it that has a retry left |
| `KissSystem.FreeIdIsHarmless` | include/libprotoserial/utils/kiss_protocol.hpp:57-59 | an id with no pending packet, copy or acknowledgement is harmless |
| `KissSystem.StaleAckRemovesNewPacket` | include/libprotoserial/utils/kiss_protocol.hpp:118-129 | in every state with an acknowledgement for the next id in flight, that acknowledgement can remove a packet the peer never saw |
| `KissSystem.StaleAckIsReachable` | include/libprotoserial/utils/kiss_protocol.hpp:57-59 | such a state is reached by holding one acknowledgement back while the 8-bit id wraps |
| `Ports.PacketArrivesExactlyWhen` | include/libprotoserial/ports/ports.hpp:138-184 | a packet arrives at the port it was sent to with its source port and data if and only if both ports fit a byte, the source port is valid and the service exists |
| `Ports.DeliverInBytes` | include/libprotoserial/ports/ports.hpp:138-155 | what a received transfer leads to, in its bytes, check byte included |
| `Ports.SendInBytes` | include/libprotoserial/ports/ports.hpp:168-184 | what is handed to the interface, in bytes, and when nothing is |
| `Ports.PortsStayWellKept` | include/libprotoserial/ports/ports.hpp:206-225 | over any run of registering and unregistering the ports stay distinct and non-zero |
| `Ports.FreePortIsNear` | include/libprotoserial/ports/ports.hpp:235-244 | the free port is within the number of services from 100, and the search fails only when every port is taken |
| `Ports.FreePortIsReachedExactlyWhen` | include/libprotoserial/ports/ports.hpp:138-244 | packets to the free port, once registered, arrive if and only if one of the ports 100 to 255 was still free |
| `Ports.FreePortCanBeUnreachable` | include/libprotoserial/ports/ports.hpp:138-244 | with 100 to 255 taken the free port is 256 and packets to it are dropped |
| `Ports.UnregisterRemoves` | include/libprotoserial/ports/ports.hpp:218-225 | unregistering removes exactly the port |
| `Ports.PortsHandler.RegisterService` | include/libprotoserial/ports/ports.hpp:206-215 | appends a valid, new port; otherwise reports why not and changes nothing |
| `Ports.PortsHandler.UnregisterService` | include/libprotoserial/ports/ports.hpp:218-225 | erases the first endpoint of the port |
| `Ports.PortsHandler.GetFreePort` | include/libprotoserial/ports/ports.hpp:235-244 | the search terminates with the least unoccupied port from 100 up, or zero when a 32-bit port number wraps |
| `Ports.PortsHandler.RegisterInterface` | include/libprotoserial/ports/ports.hpp:188-194 | an interface is registered once |
| `Ports.PortsHandler.Transmit` | include/libprotoserial/ports/ports.hpp:168-184 | puts the header in front of the data, in place when there is margin, and emits the container to the packet's interface, or nothing |
| `Ports.PortsHandler.TransferReceiveCallback` | include/libprotoserial/ports/ports.hpp:138-155 | hides the header in place and emits the container to the registered service that it names, or leaves it alone |
| `Stack.PacketsArrive` | include/libprotoserial/ports/ports.hpp:138-184 | end to end and for every schedule on both sides that does not overfill the queue or the ring: the peer's services get exactly the packets meant for them, once, in order, with data, source port and source address |
| `Stack.WireIsStream` | include/libprotoserial/interface/interface.hpp:66-104 | for every schedule that never submits to a full queue and leaves it empty, the wire carries the frames of everything submitted, in order |
| `Stack.FramesAreRouted` | include/libprotoserial/interface/interface.hpp:154-163 | over every schedule without lapping, each receiver emits every frame as its own event, as a broadcast or as neither, as destination, address and broadcast address say |
| `Stack.OthersStayBelow` | include/libprotoserial/interface/interface.hpp:154-163 | fragments for other destinations lead to no packet event and use up no id |
| `Stack.AllGoUp` | include/libprotoserial/fragmentation/bypass_handler.hpp:42-49 | fragments received as sent become the events that were meant |
| `Stack.AllGoDown` | include/libprotoserial/fragmentation/bypass_handler.hpp:56-66 | legal packets become sendable fragments, headed by their ports |
| `Stack.BypassIs` | include/libprotoserial/fragmentation/bypass_handler.hpp:42-66 | which fields and data cross the bypass handler in both directions, what is dropped, and that received transfers get a valid new id |
| `Stack.BypassHandler.DoTransmit` | include/libprotoserial/fragmentation/bypass_handler.hpp:56-66 | copies the transfer into a container with the interface's margins, or drops it when too large |
| `Stack.BypassHandler.DoReceive` | include/libprotoserial/fragmentation/bypass_handler.hpp:42-49 | wraps the fragment as a transfer with a new id |

## Left out

- Stack.PacketsArrive: says that unshadowed packets arrive, not that a shadowed one never does; the exact condition is stated for the link, where a shadowed frame also disturbs the frames behind it.
- LinkMachine.DeliveriesArePrefix: assumes that the writer does not lap the reader; the overflow test sees only the bytes loaded since the last call, so a lap over several calls goes unnoticed and only soundness is left.
- Buffered.BufferedParserInterface.DoReceive: requires a ring at least as large as the largest fragment and room for one data byte; the library does not check this, and without it iterators leave the buffer or the largest data size wraps around.
- KissSystem.AcksAreSound: assumes that every new packet is harmless, a condition on the state in which it is created; that each clause of it is needed is ReuseIsSafeExactlyWhen.
- KissSystem.ReuseIsSafeExactlyWhen: with a retry hold-off of zero the clause about packets that will be sent again is not claimed to be needed, only the others; then a packet with retries left can be passed over until the one it would harm has been given up (`ZeroHoldoffCanSpare`).
- The hardware and operating-system interfaces, the interrupt that runs while `do_receive` does (a put is atomic with respect to it) and the buffer for single-byte interrupts (`rx_buffer_future_write`).
- The checksum algorithms; the library that provides them is not part of this model.
- Events, subscriptions and object ids beyond the transmit queue: what an object emits is what its method returns.
- The clock: each operation takes the current time once, as a natural number.
- Sizes and positions are unbounded, except where a counter, a size field, an id, a port or a byte count is truncated or wraps in the library; the signed casts in `shrink` are not modelled.
- Pushing a container into itself and assigning a container to itself: the argument of a push or an assignment is a value.
- The container constructor that wraps a foreign pointer, which leaves the capacity unset.
- A frame in the transmit queue is a value; which buffer it occupies is followed up to the queue only.
- `do_transmit` that fails: the virtual interface's always succeeds.
- The per-fragment counters of a transfer, which the library reserves but never creates, are modelled as the comment beside them intends: one counter per fragment, starting at zero.
- `get_fragment` and `get_ack_fragment`: the first writes the number of the current fragment into the header whatever position was asked for, the second names a message type that does not exist; the sending side is modelled by the slices themselves.
- Timeouts, priorities, readiness and round-trip measurement of the fragmentation handler, which are abstract or unfinished, and the callback that marks a fragment as sent.
- The container inside the receive buffer: it never changes its size, so the ring is an array.
- The end of the list in `kiss_protocol::main_task`: incrementing an iterator that an erase has left at the end is taken for the end of the loop.
- `kiss_protocol::is_peer_alive`, the command, echo and link-control services, JSON and CBOR, bit rates and printing.
- The static id counter of `kiss_protocol` is one per node, as on separate devices.
- `loopback_interface`, a variant of the serializer that swaps the addresses.
