# Verified models of adb and libziparchive

This project models the parts of the Android debug bridge whose correctness depends on many steps
working together, and proves what they promise:

- **Streams.** Two ends of a transport exchange OPEN, OKAY, WRTE and CLSE packets for any number of
  sockets. `StreamEndpoint` says what one end does on an event; `StreamSystem` lets both ends run
  against each other over two FIFO channels, with any interleaving, any partial write, any read size,
  refused opens, early closes and simultaneous closes. `StreamPair`, `StreamCredit`, `StreamSteps` and
  `StreamInvariant` prove the inductive invariant; `StreamTheorems`, `StreamLoss`, `StreamFlow`,
  `StreamClosing` and `StreamAnswers` state what follows for every run, and `StreamEffects` what a write
  and an OKAY do in any state.
- **The socket table.** `SocketTable` is the same code as objects that mutate: asocket objects linked
  to their peers, the open list and the closing list, and `close_all_sockets`.
- **Byte queues and framing.** `IOVectors` is the block chain, proved to be a byte queue. `FdConnections`
  cuts a byte stream back into packets, in whatever chunks it arrives; `PacketFormat` says where the
  fields of a header lie.
- **ZIP archives.** `ZipWriting` and `ZipImage` give the meaning of writer calls, `ZipAcceptance` says
  exactly which calls succeed, `ZipWriterObject` is the writer with a file whose operations may fail,
  `ZipReading` and `ZipLookup` are the reader on arbitrary bytes, `ZipArchiveObject` is the reader with
  its loops and its index (`CdEntryMap`, whose two implementations are compared in `CdEntryAgreement`),
  and `ZipRoundTrip`, `ZipFull`, `ZipCapacity` and `ZipTheorems` bring writer and reader together.
  `ZipFormat` gives the byte offsets of all fields; `ZipLocate`, `ZipOpening` and `ZipFinding` say exactly
  when the directory is found, an archive opens and an entry is found, for arbitrary bytes; `ZipTails`
  reads archives with comments and Zip64 end records, and `ZipChecksum` follows the checksum through a
  run. `Zip64Extra` is the walk over extra fields, `ZipExtract` the copy of a stored entry, and
  `ZipPipeline` puts all the objects in a row.
- **Small parsers.** `Negotiation` (banners and the ack mode), `HostService` and `HostGrammar` (serial
  numbers in service strings), `ConsoleUtf8` (whole UTF-8 sequences out of chunks).

`dafny verify dfyconfig.toml` checks everything. Bytes are numbers from 0 to 255; integers are
unbounded, and every place where the width of a machine integer matters is written out (the 32-bit
counters of `drop_front` and of the copy loop, the 16-bit offset of the extra field walk, 32-bit
acknowledgements re-read as signed, slot widths of the hash table, signed 64-bit header offsets).

## Where a promise has an exact limit

Some expected properties hold only under a condition. Each has a lemma with the exact condition, and
where it can fail a concrete run or input.

- The event loops report a hang-up as a read even when read interest is off
  (adb/fdevent/fdevent_poll.cpp:162-171, adb/fdevent/fdevent_epoll.cpp:159-163). Then a socket can be
  read before its OKAY arrived, and those bytes are dropped (`HangupLosesBytes`; exactly then,
  `WholeRun`). A sender can also overdraw its credit, by whatever its descriptor still holds; the model
  leaves that buffer unbounded, so there is no bound (`HangupOverdraws`; the bound is kept exactly by
  armed reads, `FullReadKeepsBound`). And a closing socket whose read hits end of file is destroyed with
  bytes still queued (`HangupDropsQueue`; exactly then, `ClosingDiscipline`).
- `drop_front` counts in 32 bits; it drops the right amount if and only if the counter does not wrap
  (`DropLoopExact`, `DropFrontWraps`). What a single writev returned never makes it wrap (`ShortDropFits`).
- One read event delivers at most one packet, so a complete packet can wait in the buffer until more
  bytes arrive: exactly when two were complete (`FdConnections.Connection.OnReadable`), as
  with two packets in one read (`SecondPacketWaits`).
- The writer accepts 65535 entries, but 65535 in the end record announces Zip64: such an archive does
  not open (`OpensExactly`; runs that finish with any number of entries, `CapacityGap`). With a Zip64 end
  record behind the same entries it would (`Zip64ReadsBack`).
- The hash table is used for up to 65535 entries, however long their directory is, and its slots keep
  32 bits of an offset. A name can be added to it if and only if it fits a slot (`InsertExact`), and an
  archive that should open is represented if and only if every name begins in the first 4 GiB of its
  directory, or there are so many that the ordered map is used (`OpenArchive`). A name at 4 GiB is
  accepted, and a lookup then misses it (`FarNameIsLost`).
- A stored entry of 4 GiB or more that is read in one go is never copied completely, because the
  block size is narrowed to 32 bits (`WholeReadFinishes`).
- A feature list with one empty name reads back as an empty list (`FeaturesReadBack`).
- A serial number without a port is only recovered if the command does not begin like a port
  (`ParseInverts`).
- The block chain never keeps a first block without unread bytes (`IOVector.Valid`), so the branches of
  `take_front`, `trim_front` and `coalesce` for such a block are never taken.

## Model

| member | source | states |
|---|---|---|
| `StreamPair.FlushMoves` | adb/sockets.cpp:122-173 | what one flush does to a stream: the bytes written leave the front of the queue and join what was written, in order |
| `StreamPair.FlushKeepsSending` | adb/sockets.cpp:122-173 | a flush of the receiver does not disturb what its own sending direction owes |
| `StreamPair.FlushKeepsReceiving` | adb/sockets.cpp:122-173 | after a flush, bytes written ++ queue ++ payloads in flight are still the bytes sent |
| `StreamPair.XFlushes` | adb/sockets.cpp:122-173 | a flush keeps the two-sided invariant of the stream (pairing, bytes, credit mode, CLSE in flight) |
| `StreamPair.XForwards` | adb/sockets.cpp:213-240 | handing read bytes to the peer keeps the stream invariant: one WRTE with exactly these bytes, in order |
| `StreamPair.XCloses` | adb/sockets.cpp:344-380 | closing an end keeps the invariant: the CLSE is the last packet the end sends on this stream |
| `StreamPair.XReads` | adb/sockets.cpp:176-250 | a whole read event, data and end of file together, keeps the invariant |
| `StreamPair.XTakesOkay` | adb/adb.cpp:540-579 | an OKAY of the peer keeps the invariant; the first one connects the opener |
| `StreamPair.XTakesStrayOkay` | adb/adb.cpp:563-578 | an OKAY for a socket that is gone is answered with CLSE, and the invariant is kept |
| `StreamPair.XTakesClse` | adb/adb.cpp:581-603 | a CLSE of the peer closes the socket and keeps the invariant |
| `StreamPair.XTakesWrte` | adb/adb.cpp:605-612 | a WRTE of the peer is appended behind the queue and flushed; the invariant is kept |
| `StreamPair.XDrops` | adb/adb.cpp:581-612 | packets for a socket that is gone are dropped without effect on the stream |
| `StreamCredit.FlushCredit` | adb/sockets.cpp:146-158 | with delayed acks, a flush moves bytes from the queue to the acknowledgement: the sum is unchanged |
| `StreamCredit.WriteExact` | adb/adb.cpp:255-268 | every write, whatever it returns, is acknowledged with the amount that was written: the uint32 reads the same as int32 |
| `StreamCredit.ForwardCredit` | adb/sockets.cpp:213-235 | sending moves credit to data in flight: the sum is unchanged |
| `StreamCredit.OkayCredit` | adb/sockets.cpp:418-442 | an OKAY moves acknowledged bytes back to credit: the sum is unchanged |
| `StreamCredit.WrteCredit` | adb/sockets.cpp:252-268 | an arriving WRTE moves bytes from the channel to the queue and then into an acknowledgement: the sum is unchanged |
| `StreamCredit.AckExact` | adb/adb.cpp:255-268 | an amount survives the acknowledgement if and only if it is below 2^31 |
| `StreamCredit.PairKeepsCore` | adb/sockets.cpp:122-380 | every event of a stream keeps the stream invariant |
| `StreamCredit.PairKeepsCredit` | adb/sockets.cpp:122-442 | every event of a stream conserves credit + in flight + queued + acknowledged |
| `StreamCredit.PairKeepsBounds` | adb/sockets.cpp:213-240 | every event that reads only while armed keeps the bounds on overdraft and backlog |
| `StreamCredit.ReadComposes` | adb/sockets.cpp:176-250 | a read that ends in end of file is the read of its bytes followed by the close: the WRTE is sent before the CLSE |
| `StreamSystem.OthersUnchanged` | adb/sockets.cpp:64-79 | a step on one socket leaves every other stream of both ends as it was |
| `StreamSystem.LinkUnique` | adb/sockets.cpp:81-92 | a socket is connected with at most one socket, seen from either end |
| `StreamSystem.LinkedStep` | adb/adb.cpp:486-612 | a step of one stream keeps the whole-system invariant (ids, answers, pending opens, channels) |
| `StreamSteps.Project` | adb/adb.cpp:486-612 | what a socket does is, for its own stream, one action of that stream, and its packets are addressed to its partner |
| `StreamSteps.SendsToPeer` | adb/sockets.cpp:487-526 | flush, read, close and enqueue address packets only to the connected partner |
| `StreamSteps.OkayArrives` | adb/adb.cpp:540-579 | an arriving OKAY is an action of exactly the stream it names |
| `StreamSteps.ClseArrives` | adb/adb.cpp:581-603 | an arriving CLSE is an action of exactly the stream it names |
| `StreamSteps.WrteArrives` | adb/adb.cpp:605-612 | an arriving WRTE is an action of exactly the stream it names |
| `StreamInvariant.StreamStep` | adb/adb.cpp:486-612 | every event of a linked socket keeps its stream |
| `StreamInvariant.AnswerStreams` | adb/adb.cpp:486-537 | answering an OPEN, accepting or refusing it, keeps every old stream and creates at most one new one |
| `StreamInvariant.StepAKeeps` | adb/adb.cpp:486-612 | every enabled event of an end keeps the inductive invariant of the two-end system |
| `StreamTheorems.StepKeeps` | adb/adb.cpp:486-612 | every step of either end keeps the inductive invariant |
| `StreamTheorems.ReachableInv` | adb/adb.cpp:486-612 | the invariant holds in every reachable state |
| `StreamTheorems.PairingAtQuiescence` | adb/adb.cpp:486-603 | in every reachable state with empty channels, socket x is listed with peer y if and only if y is listed with peer x, and no open socket is without a peer |
| `StreamTheorems.StreamIntegrity` | adb/sockets.cpp:122-268 | in every reachable state, bytes written by an end are a prefix of the bytes its one partner sent; while it is open, sent == written ++ queue ++ in flight; partners are unique |
| `StreamTheorems.NoStrayBytes` | adb/adb.cpp:605-612 | every WRTE in flight belongs to a stream, and a socket without a partner wrote nothing |
| `StreamTheorems.PayloadsAreSmall` | adb/sockets.cpp:176-222 | over every run, no payload in flight is longer than MAX_PAYLOAD |
| `StreamTheorems.CutFits` | adb/sysdeps/uio.h:39-41 | IOV_MAX blocks of at most MAX_PAYLOAD bytes hold fewer than 2^31 bytes: the bound on one write |
| `StreamLoss.WholeStep` | adb/sockets.cpp:176-250 | a step keeps read == sent for all open sockets if and only if it does not read from a socket that has no peer |
| `StreamLoss.WholeRun` | adb/sockets.cpp:176-250 | over every run: read == sent holds for all open sockets in all its states if and only if no step reads from a socket that has no peer |
| `StreamLoss.DescriptorIntegrity` | adb/sockets.cpp:122-268 | over every run without such a read, bytes written are a prefix of the bytes read from the partner descriptor, with equality up to what is queued or in flight |
| `StreamLoss.ArmedHasPeer` | adb/sockets.cpp:270-276 | a socket whose read interest is armed has a peer, so only a hang-up event can cause the loss |
| `StreamLoss.HangupLosesBytes` | adb/fdevent/fdevent_poll.cpp:162-171 | a concrete run: a hang-up delivered as a read before the OKAY arrived makes the receiver miss the first byte |
| `StreamFlow.CreditConservation` | adb/sockets.cpp:213-235 | over every run: credit + in flight + receiver queue + acknowledgements in flight == INITIAL_DELAYED_ACK_BYTES, read interest is armed exactly when credit is positive, and every acknowledgement in flight is the same as int32 |
| `StreamFlow.CreditBounds` | adb/sockets.cpp:213-235 | over every run that reads only while armed: credit >= 1 - max_payload, queue <= INITIAL_DELAYED_ACK_BYTES + MAX_PAYLOAD - 1, every ack in flight is the same as int32 |
| `StreamFlow.FullReadKeepsBound` | adb/sockets.cpp:213-240 | a full read keeps the credit bound if and only if read interest was armed |
| `StreamFlow.HangupOverdraws` | adb/fdevent/fdevent_poll.cpp:162-171 | with hang-ups, and a descriptor that holds enough, the overdraft has no bound: for every amount there is a reachable state beyond it |
| `StreamFlow.NoLostWakeUp` | adb/sockets.cpp:146-158 | over every run, in both ack modes: if nothing is in flight either way and the receiver queue is empty, the sender is armed |
| `StreamEffects.WriteEffect` | adb/sockets.cpp:122-173 | in any state, open or closing: a write moves exactly its bytes from the queue to the descriptor, a failure is remembered, a closing socket is destroyed if and only if nothing is left or a write failed, and otherwise write interest is armed exactly while something is left and no write failed |
| `StreamEffects.OkayEffect` | adb/adb.cpp:540-579 | in any state: the first OKAY connects and arms reading; one from the peer adds its signed amount to the credit and arms reading if that is positive; one from another socket or of the other ack mode changes nothing |
| `StreamAnswers.WriteIsAnswered` | adb/sockets.cpp:146-158 | in every reachable state, each write of an open connected socket puts on the channel exactly: with delayed acks one OKAY with the number of bytes; without, one OKAY if something was written and less than 1 MiB (0x100000 bytes) is left, and otherwise nothing |
| `StreamAnswers.OnlyWritesAnswer` | adb/adb.cpp:226-275 | no other event sends an OKAY, except an OPEN that is accepted |
| `StreamAnswers.OpenIsAnswered` | adb/adb.cpp:486-537 | an accepted OPEN creates a connected socket that reads, and is answered with one OKAY that opens a window of 32 MiB, or no window without delayed acks |
| `StreamAnswers.WaitsForReceiver` | adb/sockets.cpp:146-158 | over every run without delayed acks, with nothing in flight either way: a sender that is not armed has a receiver that holds at least 1 MiB, or that has written nothing since the last WRTE arrived |
| `StreamClosing.DisciplineStep` | adb/sockets.cpp:160-164 | in every state of the invariant: a step destroys sockets only once all their bytes are written or a write failed, if and only if it is not a read of end of file from a closing socket |
| `StreamClosing.ClosingEnds` | adb/sockets.cpp:160-164 | a closing socket ends if and only if a write leaves nothing it could write, or its read hits end of file |
| `StreamClosing.ClosingDiscipline` | adb/sockets.cpp:344-380 | over every run: all steps keep this discipline if and only if no step is such a read |
| `StreamClosing.ArmedDiscipline` | adb/sockets.cpp:370-372 | over every run that reads only while armed, the discipline is kept |
| `StreamClosing.HangupDropsQueue` | adb/fdevent/fdevent_poll.cpp:162-171 | a concrete run: a hang-up makes a closing socket disappear with the byte in its queue unwritten |
| `SocketTable.Table.Remove` | adb/sockets.cpp:94-100 | both lists lose exactly this socket and keep their order |
| `SocketTable.Table.Unlist` | adb/sockets.cpp:328-342 | a destroyed socket is on neither list and nothing points to it |
| `SocketTable.Table.Linger` | adb/sockets.cpp:359-380 | a closing socket loses its read interest and joins the closing list; its write interest is armed, so the assertion of the source holds |
| `SocketTable.Table.Retire` | adb/sockets.cpp:359-380 | a socket without peer is destroyed, or kept exactly if it has bytes it can still write |
| `SocketTable.Table.Disconnect` | adb/sockets.cpp:346-357 | the link is cut on the side of the peer; a remote peer sends one CLSE |
| `SocketTable.Table.CloseOpen` | adb/sockets.cpp:344-380 | what leaves the open list, what joins the closing list, what is sent, and that no other socket changes |
| `SocketTable.Table.Close` | adb/sockets.cpp:344-380 | the same for a socket on either list, and that no other socket changes; a closing socket is destroyed |
| `SocketTable.Table.FirstMatch` | adb/sockets.cpp:108-113 | the first open socket bound to the transport, directly or through its peer |
| `SocketTable.Table.CloseMatch` | adb/sockets.cpp:108-113 | one close shortens the open list, removes only matching sockets, keeps on the closing list exactly those that can still write, and sends the CLSE of the first match |
| `SocketTable.Table.CloseFirst` | adb/sockets.cpp:108-113 | one scan closes the first match, or proves that none is left |
| `SocketTable.Table.CloseAll` | adb/sockets.cpp:102-114 | terminates; the open list is the old one without exactly the sockets bound to the transport directly or through their peer; the closing list grows by exactly those of them that can still write; one CLSE is sent for each that has a remote peer, in the order of the list |
| `SocketTable.Table.WriteOut` | adb/sockets.cpp:122-145 | the queue loses exactly the bytes written; an error is remembered |
| `SocketTable.Table.Acknowledge` | adb/sockets.cpp:146-158 | with credit, one OKAY with the amount; without, one OKAY exactly if something was flushed and less than 1 MiB is left; nothing without peer or transport |
| `SocketTable.Table.AnswersAgree` | adb/sockets.cpp:146-158 | the OKAY of the socket object is that of the endpoint in the two-end system |
| `SocketTable.Table.Conclude` | adb/sockets.cpp:160-173 | a closing socket is destroyed exactly when drained or failed; otherwise write interest is armed exactly when bytes are left |
| `SocketTable.Table.FlushIncoming` | adb/sockets.cpp:122-173 | new queue, error flag, the OKAY sent (as above), result and lists; a closing socket is destroyed if and only if it is drained or a write failed |
| `SocketTable.Table.Enqueue` | adb/sockets.cpp:252-268 | the data is appended and flushed; the open socket survives, and the result says whether bytes are left |
| `SocketTable.Table.EnqueueRemote` | adb/sockets.cpp:487-505 | one WRTE with exactly the data, and the sender has to wait; data longer than MAX_PAYLOAD is refused and nothing is sent |
| `SocketTable.Table.Forward` | adb/sockets.cpp:213-240 | credit, read interest and the WRTE sent; for a local peer its queue, error flag and write interest, and the OKAY it answers |
| `SocketTable.Table.FlushOutgoing` | adb/sockets.cpp:176-250 | packets sent (WRTE or the answer of a local peer, then CLSE at end of file), credit and read interest, the queue of a local peer, both lists in every case, and that no other socket changes |
| `SocketTable.Table.Ack` | adb/sockets.cpp:418-442 | credit and read interest after an ack; a mismatch of modes changes nothing |
| `SocketTable.Table.Find` | adb/sockets.cpp:64-79 | an open socket with this id and, if asked, this peer; a null result means there is none |
| `SocketTable.Table.Install` | adb/sockets.cpp:81-92 | a new id, a new entry at the end of the open list, everything else unchanged |
| `SocketTable.Table.ConnectRemote` | adb/sockets.cpp:544-558 | a fresh remote socket, linked both ways |
| `SocketTable.Table.ConnectLocal` | adb/sockets.cpp:899-901 | two local sockets linked both ways |
| `SocketTable.WithoutTwice` | adb/sockets.cpp:94-114 | removing twice is removing the union |
| `IOVectors.DropLoopExact` | adb/types.cpp:41-63 | the loop drops exactly len bytes if and only if its 32-bit counter never wraps while whole blocks are popped |
| `IOVectors.DropLoopSkips` | adb/types.cpp:41-63 | whatever the counter does, a loop that ends has skipped at least what was asked for |
| `IOVectors.ShortDropFits` | adb/types.cpp:41-63 | a drop of less than 2^32 bytes never wraps |
| `IOVectors.DropFrontWraps` | adb/types.cpp:41-63 | a concrete chain on which a drop of 4 GiB and one byte runs off the chain |
| `IOVectors.IOVector.constructor` | adb/types.h:145-147 | an empty queue |
| `IOVectors.IOVector.Size` | adb/types.h:171-172 | cached length minus offset is the length of the queue |
| `IOVectors.IOVector.FrontSize` | adb/types.h:163-169 | the unread part of the first block is a prefix of the queue |
| `IOVectors.IOVector.Append` | adb/types.h:184-192 | the queue grows by the block; an empty block changes nothing |
| `IOVectors.IOVector.Clear` | adb/types.cpp:29-39 | the queue is empty |
| `IOVectors.IOVector.MoveFrom` | adb/types.cpp:19-27 | the queue moves as a whole and the source is left empty |
| `IOVectors.IOVector.DropFront` | adb/types.cpp:41-63 | the queue loses exactly its first len bytes |
| `IOVectors.IOVector.TakeBlocks` | adb/types.cpp:72-92 | whole blocks move to the result: result ++ rest is the old queue |
| `IOVectors.IOVector.SplitFrontBlock` | adb/types.cpp:93-111 | both ways of splitting a block, by copy and by move, cut the queue at the same place |
| `IOVectors.IOVector.TakeFront` | adb/types.cpp:65-112 | the result is the first len bytes, the rest stays |
| `IOVectors.IOVector.TrimFront` | adb/types.cpp:114-129 | the queue does not change and nothing consumed is kept |
| `IOVectors.IOVector.TrimChainFront` | adb/types.cpp:131-136 | the queue does not change and the chain starts at index 0 |
| `IOVectors.IOVector.PopFrontBlock` | adb/types.cpp:138-146 | the queue loses exactly the unread part of its first block |
| `IOVectors.IOVector.Iovecs` | adb/types.cpp:193-204 | the pieces handed to writev are the queue, in order, and none is empty |
| `IOVectors.IOVector.CoalesceCopy` | adb/types.h:225-241 | the copy is the queue |
| `IOVectors.IOVector.Gather` | adb/types.cpp:166-191 | copying the later blocks behind the first, in place or into a new block, gives the queue |
| `IOVectors.IOVector.Coalesce` | adb/types.cpp:148-191 | every shortcut of the destructive form returns exactly what the copying form returns |
| `IOVectors.JoinedPieces` | adb/types.cpp:193-204 | the pieces of the blocks concatenate to the queue |
| `FdConnections.ParseOfHeader` | adb/transport_fd.cpp:108-113 | a message header survives writing and reading; HeaderByte and ParsedWord say where each field lies |
| `FdConnections.HeaderOfParse` | adb/transport_fd.cpp:108-113 | any 24 bytes are the header of what is parsed from them; HeaderByte and ParsedWord say where each field lies |
| `PacketFormat.HeaderByte` | adb/types.h:125-132 | byte 4 i + j of every header is field i, in the order command, arg0, arg1, data_length, data_check, magic, divided by 256^j, modulo 256 |
| `PacketFormat.ParsedWord` | adb/transport_fd.cpp:108-113 | field i parsed from any 24 bytes is the little-endian number in bytes 4 i to 4 i + 3 |
| `FdConnections.FramesUnique` | adb/transport_fd.cpp:108-126 | frames can be read off the wire in one way only |
| `FdConnections.Connection.OnReadable` | adb/transport_fd.cpp:94-126 | for any chunk: received == encoding of delivered packets ++ pending header ++ read buffer; a packet is delivered if and only if one is complete, and it is the first one; a complete packet is left in the buffer if and only if there were two |
| `FdConnections.PrefixIncomplete` | adb/transport_fd.cpp:108-126 | anything shorter than a packet on the wire is not complete |
| `FdConnections.HeaderTaken` | adb/transport_fd.cpp:108-126 | whether the header was taken in an earlier read makes no difference to when a packet is complete and what it is |
| `FdConnections.TwoFrames` | adb/transport_fd.cpp:108-126 | two packets on the wire are two complete packets, and the first is the one taken |
| `FdConnections.SecondPacketWaits` | adb/transport_fd.cpp:94-126 | any two packets that arrive in one read of a new connection: the first is delivered, the second waits, complete, in the buffer |
| `FdConnections.Connection.DispatchWrites` | adb/transport_fd.cpp:176-200 | accepted ++ write buffer is the encoding of all packets written; unless there is an error, writable if and only if the buffer is empty |
| `FdConnections.Connection.Write` | adb/transport_fd.cpp:202-217 | the packet joins the encoding; the result and the writable flag |
| `FdConnections.DeliveredArePrefix` | adb/transport_fd.cpp:94-217 | end to end, the packets delivered are a prefix of the packets written, whatever the chunks and partial writes |
| `Bits.RoundUpIsLeast` | libziparchive/zip_cd_entry_map.h:38-48 | the bit smearing yields the least power of two that is not smaller |
| `CdEntryMap.TableSizeOk` | libziparchive/zip_cd_entry_map.h:119-132 | the table is the least power of two that is at least 1 + 4 n / 3, and always has more slots than entries |
| `CdEntryMap.NotAllUsed` | libziparchive/zip_cd_entry_map.h:119-132 | a walk around such a table meets an empty slot |
| `CdEntryMap.NextSlot` | libziparchive/zip_cd_entry_map.cc:43 | masking with size - 1 is the next slot of the circle |
| `CdEntryMap.SearchMisses` | libziparchive/zip_cd_entry_map.cc:38-49 | a search that reaches an empty slot proves the name absent |
| `CdEntryMap.InsertOk` | libziparchive/zip_cd_entry_map.cc:51-73 | storing in the slot that the search reached adds exactly this name to the map |
| `CdEntryMap.IterationIsComplete` | libziparchive/zip_cd_entry_map.cc:81-93 | an iteration yields each entry of the map exactly once |
| `CdEntryMap.CdEntryMapZip32.constructor` | libziparchive/zip_cd_entry_map.h:119-132 | an empty table stands for the empty map over any directory |
| `CdEntryMap.CdEntryMapZip32.Probe` | libziparchive/zip_cd_entry_map.cc:33-49 | the probe terminates and finds the name if and only if it is in the map |
| `CdEntryMap.CdEntryMapZip32.Get` | libziparchive/zip_cd_entry_map.cc:33-49 | the lookup of the finite map; whatever the table holds, what is found spells the name and fits a slot |
| `CdEntryMap.CdEntryMapZip32.Add` | libziparchive/zip_cd_entry_map.cc:51-73 | the insertion of the finite map for a name anywhere in any directory: a duplicate is refused and changes nothing, and the table stands for the larger map if and only if the new name fits a slot |
| `CdEntryMap.CdEntryMapZip32.Next` | libziparchive/zip_cd_entry_map.cc:81-93 | the next entry of what is still to be yielded |
| `CdEntryMap.ListAll` | libziparchive/zip_cd_entry_map.cc:76-93 | a reset and then calls of Next until the end yield each entry of the map exactly once |
| `CdEntryAgreement.AddToBoth` | libziparchive/zip_cd_entry_map.cc:51-103 | the same names added to the hash table and to the ordered map: the table ends up with the same entries if and only if every name that is added fits a slot, and then the verdicts are the same |
| `CdEntryAgreement.DriveBoth` | libziparchive/zip_cd_entry_map.cc:33-114 | for any directory, any hash and up to 65535 names: the map accepts a name if and only if it is new and finds the first place of each; asked for all names, the table gives the same answers if and only if the first place of each fits a slot |
| `CdEntryMap.CdEntryMapZip64.Add` | libziparchive/zip_cd_entry_map.cc:95-103 | the same insertion, with the same verdict on duplicates |
| `CdEntryMap.InsertExact` | libziparchive/zip_cd_entry_map.cc:51-73 | storing a new name in the slot that the search reached adds it to the map if and only if offset and length fit the bit fields |
| `CdEntryMap.PackedExact` | libziparchive/zip_cd_entry_map.cc:69-72 | a slot keeps an offset and a length if and only if they fit its bit fields |
| `CdEntryAgreement.FarNameIsLost` | libziparchive/zip_cd_entry_map.cc:51-73 | any directory with a name that begins at 2^32: the table accepts the name and a lookup then misses it, while the ordered map finds it |
| `CdEntryMap.ChosenFits` | libziparchive/zip_cd_entry_map.cc:128-140 | a name of the directory fits the slots that are chosen if and only if it begins in the first 4 GiB |
| `CdEntryMap.ChosenExact` | libziparchive/zip_cd_entry_map.cc:128-140 | slots of 20 and 12 bits are chosen exactly if the directory is at most 0xfffff long and its names at most 0xfff; otherwise slots of 32 and 16 bits |
| `EntryNames.IsValidEntryName` | libziparchive/entry_name_utils-inl.h:28-63 | accepts exactly the names of at most 65535 bytes made of non-zero single bytes and complete multi-byte sequences |
| `EntryNames.ValidExact` | libziparchive/entry_name_utils-inl.h:28-63 | a name is valid if and only if it has at most 65535 bytes and is a string of characters of one to six bytes, with the lead bytes of each length and no NUL; the comment in the source says five, the code takes six |
| `ZipRecords.LocalRoundTrip` | libziparchive/zip_archive_common.h:129-173 | a local header that fits its fields reads back |
| `ZipRecords.CdRoundTrip` | libziparchive/zip_archive_common.h:75-127 | a directory record that fits its fields reads back |
| `ZipRecords.EocdRoundTrip` | libziparchive/zip_archive_common.h:31-73 | an end record that fits its fields reads back |
| `ZipFormat.WordsRead` | libziparchive/zip_archive_common.h:31-67 | 16-, 32- and 64-bit numbers are read lowest byte first, at any place |
| `ZipFormat.LocalLayout` | libziparchive/zip_archive_common.h:129-163 | every field of a local header, by its byte offset in any 30 bytes |
| `ZipFormat.RecordLayout` | libziparchive/zip_archive_common.h:75-123 | every field of a directory record, by its byte offset in any 46 bytes |
| `ZipFormat.EndLayout` | libziparchive/zip_archive_common.h:31-67 | every field of an end record, by its byte offset in any 22 bytes |
| `ZipAcceptance.AlignmentExact` | libziparchive/zip_writer.cc:221-226 | the two tests of an alignment accept exactly 0 and the powers of two up to 2^15 |
| `ZipAcceptance.StartExact` | libziparchive/zip_writer.cc:208-239 | a start succeeds if and only if no entry is open, fewer than 65535 exist, the header begins in the first 4 GiB, the name is valid and the alignment is 0 or a power of two up to 2^15; which code each failure gives, and what it changes |
| `ZipAcceptance.StartWrites` | libziparchive/zip_writer.cc:275-296 | an accepted start writes 30 bytes, the name and the padding behind everything before, and opens an empty entry there |
| `ZipAcceptance.StartAligns` | libziparchive/zip_writer.cc:255-273 | the padding is the distance to the next multiple of the alignment, and none without one |
| `ZipAcceptance.StartHeads` | libziparchive/zip_writer.cc:178-203 | field by field, the header written at the start: flag 8, checksum and sizes zero, time stamp, name and padding length |
| `ZipAcceptance.WriteExact` | libziparchive/zip_writer.cc:351-388 | a write succeeds if and only if an entry is open and stays at most 2^32 - 1 bytes long; otherwise the code, and the error state |
| `ZipAcceptance.EndExact` | libziparchive/zip_writer.cc:468-514 | ending needs an open entry, discarding a finished one; a refusal changes nothing |
| `ZipAcceptance.FinishExact` | libziparchive/zip_writer.cc:516-584 | finishing succeeds if and only if no entry is open and the directory ends at most at 2^32 - 1; otherwise the code and the state |
| `ZipImage.StartAgrees` | libziparchive/zip_writer.cc:206-297 | a start gives the code the entry list demands (StartExact says which), and the file up to the offset is the entries and an open header |
| `ZipImage.WriteAgrees` | libziparchive/zip_writer.cc:351-388 | written bytes are appended to the current entry; called at the wrong time the writer is in its error state |
| `ZipImage.EndAgrees` | libziparchive/zip_writer.cc:468-514 | rewriting the header in place turns the open entry into a finished one, byte for byte |
| `ZipImage.DiscardAgrees` | libziparchive/zip_writer.cc:299-311 | the last entry leaves the list, whatever stale bytes stay behind the offset |
| `ZipImage.FinishAgrees` | libziparchive/zip_writer.cc:516-584 | the finished file is the entries, their directory and the end record, and nothing else |
| `ZipImage.StepAgrees` | libziparchive/zip_writer.cc:206-584 | every call agrees with its meaning on the list of entries |
| `ZipImage.RunAgrees` | libziparchive/zip_writer.cc:206-584 | over every run of calls, the codes and the file are those of the entry list |
| `ZipDiscard.DiscardUndoesEntry` | libziparchive/zip_writer.cc:299-311 | start, any writes, finish and discard make no difference to any continuation: same codes, and the same bytes if the archive is finished |
| `ZipDiscard.SameMeaningSameRun` | libziparchive/zip_writer.cc:571-576 | two writers with the same entries cannot be told apart, whatever lies behind their offsets |
| `ZipEntries.SpecRunOk` | libziparchive/zip_writer.cc:206-297 | every entry of every run has a valid name, fields that fit, a header where the entries before it end, and the padding of its alignment |
| `ZipEntries.PaddingAligns` | libziparchive/zip_writer.cc:258-275 | the padding is less than the alignment and brings the data to a multiple of it |
| `ZipEntries.DataAligned` | libziparchive/zip_writer.cc:258-275 | the data offset of every entry is divisible by its alignment |
| `ZipWriterObject.ZipWriter.StartAlignedEntryWithTime` | libziparchive/zip_writer.cc:206-297 | with file operations that may fail: exactly the start that StartExact, StartWrites and StartAligns describe, or an I/O error and the error state |
| `ZipWriterObject.ZipWriter.WriteBytes` | libziparchive/zip_writer.cc:351-388 | exactly the write above, or an I/O error and the error state |
| `ZipWriterObject.ZipWriter.FinishEntry` | libziparchive/zip_writer.cc:468-514 | exactly the end of an entry above, or an I/O error and the error state |
| `ZipWriterObject.ZipWriter.DiscardLastEntry` | libziparchive/zip_writer.cc:299-311 | exactly the discard above, or an I/O error and the error state; the seek stays inside the file |
| `ZipWriterObject.ZipWriter.WriteDirectory` | libziparchive/zip_writer.cc:521-548 | the loop over the entries writes exactly their directory at the offset |
| `ZipWriterObject.ZipWriter.WriteEnd` | libziparchive/zip_writer.cc:550-580 | the end record is written and everything behind it is cut off |
| `ZipWriterObject.ZipWriter.Finish` | libziparchive/zip_writer.cc:516-584 | exactly the finish above, or an I/O error and the error state |
| `Zip64Extra.ParseExtra` | libziparchive/zip_archive.cc:439-539 | the loop with its uint16 offset ends, stays inside the field, never wraps and yields what the walk yields; what the callers assert to be there is there |
| `Zip64Extra.WalkProvides` | libziparchive/zip_archive.cc:598-608 | on success every field asked for is present, so the assertions in the callers cannot fire |
| `Zip64Extra.TakeExact` | libziparchive/zip_archive.cc:488-531 | reading a record succeeds if and only if its data is one number per wanted field, or all three, perhaps with a disk number |
| `Zip64Extra.WalkExact` | libziparchive/zip_archive.cc:439-539 | the walk succeeds with these values if and only if they are those of the first 0x0001 record, after complete records of other kinds |
| `Zip64Extra.WalkCodes` | libziparchive/zip_archive.cc:439-539 | which code a walk gives that finds no room for a record, a record that leaves the field, or a 0x0001 record without the numbers wanted |
| `ZipReading.LastSignature` | libziparchive/zip_archive.cc:302-316 | the last place in the window where the end record signature stands, or none |
| `ZipReading.MapDirectory` | libziparchive/zip_archive.cc:363-437 | for any file: on success the directory lies inside the file and is not empty; PlainExact, Zip64Exact, Zip64Astray, Zip64Missing and NoEnd say what is found |
| `ZipLocate.NoEnd` | libziparchive/zip_archive.cc:363-388 | a file below 22 bytes or above 2^38, or without an end record signature in its last 65557 bytes, is not an archive |
| `ZipLocate.PlainExact` | libziparchive/zip_archive.cc:318-358 | for every file whose last end record signature begins these field values: an error if the comment is not exactly the rest; if no field is full, the number of records, size and offset of that record, or which error |
| `ZipLocate.Zip64Exact` | libziparchive/zip_archive.cc:213-275 | for every file with a full end record, a locator in front of it and a Zip64 end record where that points, all written by an independent encoder: the number of records, size and offset are those of the Zip64 record, or which error |
| `ZipLocate.Zip64Astray` | libziparchive/zip_archive.cc:238-258 | a locator that points too far is a bad offset, one that points elsewhere a bad file |
| `ZipLocate.Zip64Missing` | libziparchive/zip_archive.cc:215-236 | a full end record without a locator in front of it is a bad file |
| `ZipTails.CommentedDirectory` | libziparchive/zip_archive.cc:302-358 | any bytes, a directory, an end record for it and any comment without a signature: the directory is found |
| `ZipTails.Zip64Directory` | libziparchive/zip_archive.cc:213-275 | the same with a Zip64 end record and a locator, any bytes between them and any values in the other fields |
| `ZipReading.CheckFields` | libziparchive/zip_archive.cc:570-627 | for any bytes: a record that passes lies inside the directory and has a valid name |
| `ZipOpening.OffsetExact` | libziparchive/zip_archive.cc:597-608 | where a record says its header is: its own field, or the last number wanted (or third of three) of the first 0x0001 record, as a signed number |
| `ZipOpening.FieldsExact` | libziparchive/zip_archive.cc:570-626 | a record passes if and only if signature, name, extra field and comment lie in the directory, the name is valid and the header lies in front; where the next one starts |
| `ZipOpening.FieldsCodes` | libziparchive/zip_archive.cc:570-626 | which code a record gives that fails, by the first thing that is wrong |
| `ZipOpening.StartsExact` | libziparchive/zip_archive.cc:558-627 | the first pass succeeds if and only if sound records follow each other without a gap, and yields their places |
| `ZipOpening.IndexExact` | libziparchive/zip_archive.cc:637-647 | the second pass succeeds if and only if all names differ, and yields exactly the names and their places |
| `ZipOpening.OpenExact` | libziparchive/zip_archive.cc:547-673 | any file whose directory is found opens as this if and only if the directory is such a chain with different names, these are indexed, and the file begins with a local header |
| `ZipReading.StartsChecked` | libziparchive/zip_archive.cc:558-627 | every record that the first pass accepted is inside the directory |
| `ZipReading.Open` | libziparchive/zip_archive.cc:670-673 | for any file that opens, every indexed name lies with its record where the index says |
| `ZipLookup.CheckLocal` | libziparchive/zip_archive.cc:868-1039 | for any file: an entry that is found carries the requested name in its local header, its data lies in front of the directory, method, time stamp, checksum and sizes are those of the directory record, it has a data descriptor if and only if bit 3 of the local flags is set, and without one both headers agree on checksum and sizes |
| `ZipFinding.FlagIsMask` | libziparchive/zip_archive.cc:986-998 | the flag is bit 3, which the mask 8 selects |
| `ZipFinding.SizesExact` | libziparchive/zip_archive.cc:924-961 | the sizes of a local header: its fields, or, if both are all ones, the first two numbers of the 0x0001 record, uncompressed first; nothing else |
| `ZipFinding.SizesCodes` | libziparchive/zip_archive.cc:927-955 | one size alone all ones is a bad file; with both, the code of the walk |
| `ZipFinding.ExtentExact` | libziparchive/zip_archive.cc:817-848 | sizes and header offset of a directory record: its fields, or the numbers of the 0x0001 record for the fields that are all ones, in their order, or all three |
| `ZipFinding.LocalExact` | libziparchive/zip_archive.cc:867-1038 | a local header passes if and only if signature, name and bounds are right, its sizes are known and, only if bit 3 is clear, checksum and sizes are those of the directory; the entry returned, field by field |
| `ZipFinding.NameCodes` | libziparchive/zip_archive.cc:867-920 | which code a local header gives whose signature, name or extra field is wrong, by the first thing that is |
| `ZipFinding.LocalCodes` | libziparchive/zip_archive.cc:924-1035 | which code it gives if its sizes are not known, it does not agree with the directory, or its data leaves the file |
| `ZipFinding.HeaderCodes` | libziparchive/zip_archive.cc:850-865 | a header that does not begin in front of the directory, or at a negative offset |
| `ZipFinding.FindExact` | libziparchive/zip_archive.cc:787-1039 | an indexed name is found as this entry if and only if the directory record, its extra field and the local header it points to say so |
| `ZipTails.FindFrame` | libziparchive/zip_archive.cc:787-1039 | two files that agree in front of the directory give the same answer to every name |
| `ZipLookup.Find` | libziparchive/zip_archive.cc:1113-1128 | for any file and name: names of 0 or more than 65535 bytes are invalid, names that are not indexed are not found, and what is found (FindExact) has its data inside the file |
| `ZipArchiveObject.ScanBackward` | libziparchive/zip_archive.cc:302-316 | the backward loop finds the last signature of the window |
| `ZipArchiveObject.MapCentralDirectory` | libziparchive/zip_archive.cc:363-437 | the whole location of the directory, with every error, equals the specification that PlainExact, Zip64Exact, Zip64Astray, Zip64Missing and NoEnd describe |
| `ZipArchiveObject.CheckRecords` | libziparchive/zip_archive.cc:547-627 | the first pass accepts exactly when all records pass, with the same error, and knows the longest name |
| `ZipArchiveObject.FillTable` | libziparchive/zip_archive.cc:637-647 | the second pass into the hash table ends safely for any directory, and if every name fits a slot it yields the index of all names, or a duplicate |
| `ZipArchiveObject.FillMap` | libziparchive/zip_archive.cc:637-647 | the second pass into the ordered map yields the same index |
| `ZipArchiveObject.BuildTable` | libziparchive/zip_cd_entry_map.cc:128-140 | the table stands for the index of all names only if every name begins in the first 4 GiB, and then it does, or reports a duplicate |
| `ZipArchiveObject.ZipArchive.BuildIndex` | libziparchive/zip_cd_entry_map.cc:128-140 | whichever index is chosen, it stands for the index of all names if there are more than 65535 records or every name begins in the first 4 GiB, and otherwise it does not |
| `ZipArchiveObject.ZipArchive.ParseZipArchive` | libziparchive/zip_archive.cc:547-668 | both passes and the test of the first bytes: for an indexable directory success and every error are those of the specification; a success of the specification is followed only then |
| `ZipArchiveObject.ZipArchive.OpenArchive` | libziparchive/zip_archive.cc:670-673 | for any file: if it is indexable, success and every error are those of the specification of opening; a file that opens is represented if and only if it is indexable |
| `ZipArchiveObject.ZipArchive.FindEntry` | libziparchive/zip_archive.cc:1113-1128 | the result is that of the specification of finding, which FindExact, NameCodes, LocalCodes and HeaderCodes describe |
| `ZipIndex.StartsAll` | libziparchive/zip_archive.cc:558-627 | the first pass accepts every directory the writer writes, record by record |
| `ZipIndex.IndexAll` | libziparchive/zip_archive.cc:637-647 | the second pass indexes all names, or reports a duplicate if and only if one repeats |
| `ZipRoundTrip.OpenWritten` | libziparchive/zip_archive.cc:547-673 | a finished archive with 1 to 65534 entries opens if and only if its names are distinct |
| `ZipRoundTrip.FindWritten` | libziparchive/zip_archive.cc:787-1039 | each non-empty name is found with its time stamp, checksum, sizes and the data offset of the writer |
| `ZipRoundTrip.EntryReadsBack` | libziparchive/zip_archive.cc:787-1039 | the same, and the bytes at that offset are the content |
| `ZipRoundTrip.NothingElse` | libziparchive/zip_archive.cc:1113-1128 | no other name is found |
| `ZipTails.HeaderWritten` | libziparchive/zip_writer.cc:178-203 | field by field, the local header of every entry of a finished archive |
| `ZipTails.RecordWritten` | libziparchive/zip_writer.cc:522-539 | field by field, its directory record |
| `ZipTails.EndWritten` | libziparchive/zip_writer.cc:550-562 | field by field, the end record |
| `ZipTails.CommentReadsBack` | libziparchive/zip_archive.cc:302-358 | a finished archive with any comment without a signature opens and gives back every entry as without it |
| `ZipTails.Zip64ReadsBack` | libziparchive/zip_archive.cc:213-275 | the entries and directory of a run with a Zip64 end record: up to 65535 entries open and read back |
| `ZipFull.NoLocator` | libziparchive/zip_archive.cc:213-242 | the bytes in front of the end record of a written archive are never a usable Zip64 locator |
| `ZipFull.OpensExactly` | libziparchive/zip_archive.cc:323-344 | a finished archive opens if and only if it has 1 to 65534 entries with distinct names; with 65535 it does not |
| `ZipCapacity.ShortArchives` | libziparchive/zip_writer.cc:206-584 | up to 65535 entries with any valid names of three bytes are accepted and the archive is finished; it opens if and only if there are 1 to 65534 of them and the names are distinct |
| `ZipCapacity.CapacityGap` | libziparchive/zip_archive.cc:323-344 | concrete runs for every number of entries up to 65535, with distinct names: all are finished, and exactly those with 1 to 65534 entries open |
| `ZipTheorems.FinishedFile` | libziparchive/zip_writer.cc:516-584 | over every run that reaches a successful finish, on a file with any old contents, the bytes are the image of the entries |
| `ZipTheorems.OpensFinished` | libziparchive/zip_archive.cc:547-673 | over every such run, exactly when the result opens |
| `ZipTheorems.ReadsWhatWasWritten` | libziparchive/zip_archive.cc:787-1039 | over every such run whose result opens, each entry reads back and its data offset is divisible by its alignment |
| `ZipTheorems.FindsNothingElse` | libziparchive/zip_archive.cc:1113-1128 | over every such run whose result opens, no name that the run did not leave in the archive is found |
| `ZipChecksum.ChecksumReadsBack` | libziparchive/zip_writer.cc:373-375 | over every run whose result opens, for every checksum function that can be continued: the checksum found with an entry is that of the bytes found as its content, however they were cut into writes |
| `ZipTheorems.OneEntryReadsBack` | libziparchive/zip_writer.cc:206-584 | for every new writer, every acceptable start (any valid non-empty name, any alignment 0 or 2^k with k at most 15, any time stamp) and content below 2 GiB: start, write, finish entry and finish succeed, and the result opens and gives back the content, at a multiple of the alignment |
| `ZipExtract.MemoryWriter.Append` | libziparchive/zip_archive.cc:1206-1220 | a block is stored behind the others, or refused without effect if it does not fit |
| `ZipExtract.CopyEntry` | libziparchive/zip_archive.cc:1540-1601 | the region receives exactly the stored bytes and nothing else changes; it fails exactly when the entry leaves the file |
| `ZipExtract.ExtractToMemory` | libziparchive/zip_archive.cc:1640-1647 | refused exactly when the region is too small; otherwise the region starts with the stored bytes |
| `ZipExtract.WholeReadFinishes` | libziparchive/zip_archive.cc:1569-1593 | a copy that reads everything at once finishes if and only if the length is below 2^32 |
| `ZipExtract.BlocksProgress` | libziparchive/zip_archive.cc:1569-1593 | a copy in blocks makes progress in every turn |
| `ZipPipeline.ApplyAll` | libziparchive/zip_writer.cc:206-584 | any run of calls on the writer object, with file operations that may fail: if it ends finished, the file is that of the run |
| `ZipPipeline.ReadBack` | libziparchive/zip_archive.cc:1640-1647 | open, find and extract with the objects: succeeds if and only if the archive opens and has an entry of this name that fits the region, and yields its content |
| `ZipPipeline.WriteThenRead` | libziparchive/zip_archive.cc:1640-1647 | the whole way, from any run of calls on a new writer to the bytes in the region |
| `Strings.Split` | libbase/strings.cpp:37-53 | the loop yields the parts between the delimiters, for any set of them, empty parts included |
| `Strings.SplitCovers` | libbase/strings.cpp:37-53 | no part holds a delimiter, and the parts with one delimiter between two of them are the string |
| `Strings.JoinSplit` | libbase/strings.cpp:37-53 | joining the parts restores the string |
| `Strings.SplitsBack` | libbase/include/android-base/strings.h:97-109 | splitting a join recovers the parts if none contains the delimiter |
| `Negotiation.FeaturesReadBack` | adb/transport.cpp:1231-1241 | a printed feature list reads back if and only if it is not the list of one empty name |
| `Negotiation.Transport.SetFeatures` | adb/transport.cpp:1256-1259 | features and ack mode after a feature string |
| `Negotiation.Transport.ParseBanner` | adb/adb.cpp:337-389 | all fields of the transport after any banner, malformed ones included |
| `Negotiation.BannerReads` | adb/adb.cpp:280-302 | parsing the printed banner yields the product fields, features and state that were put in |
| `Negotiation.BannerText` | adb/adb.cpp:280-302 | the properties in a banner, character for character and in order |
| `Negotiation.BannerState` | adb/adb.cpp:371-390 | the state told is the one whose word was printed, for all six; any other word means a host |
| `Negotiation.OddProperty` | adb/adb.cpp:352-355 | a property without an equals sign, or with more than one, changes nothing |
| `Negotiation.AnyBanner` | adb/adb.cpp:342-371 | of any banner only the first and third piece count; the old features are always forgotten |
| `Negotiation.LearnsFeatures` | adb/adb.cpp:337-369 | an end learns exactly the features of the other, in order |
| `Negotiation.BothAgree` | adb/transport.cpp:1248-1259 | both ends choose the same ack mode, delayed if and only if both offer it |
| `HostService.ParseSplits` | adb/sockets.cpp:662-780 | for any input: on success serial ++ ":" ++ command is the whole input and the command is not empty |
| `HostService.ParseInverts` | adb/sockets.cpp:662-780 | for every well-formed serial (device words, host, host:port, [ipv6], [ipv6]:port, with protocol words): the parse inverts the printing if and only if the command is not empty and, for a serial without port, does not begin like a port |
| `HostGrammar.ParseExact` | adb/sockets.cpp:662-780 | a service string yields this serial and command if and only if it is the two with a colon between them and the serial is one of the written-out grammar (usb, product, model, device or localfilesystem and a name; tcp, udp and vsock prefixes; host, host:port, [ipv6], [ipv6]:port) that fits in front of the command; everything else is refused |
| `HostService.RequestReads` | adb/client/adb_client.cpp:415-430 | the same from the printed request to the server |
| `ConsoleUtf8.CodepointLenIs` | adb/sysdeps_win32.cpp:2626-2629 | the bit expression is the length that the lead byte announces |
| `ConsoleUtf8.ParseComplete` | adb/sysdeps_win32.cpp:2635-2671 | the backward loop cuts where its specification says and keeps the rest |
| `ConsoleUtf8.Console.Write` | adb/sysdeps_win32.cpp:2692-2710 | what is passed on and what waits, with and without bytes already waiting |
| `ConsoleUtf8.NothingLost` | adb/sysdeps_win32.cpp:2692-2710 | for any chunking of any stream: bytes passed on ++ bytes waiting == bytes received, and at most three wait |
| `ConsoleUtf8.CutsRight` | adb/sysdeps_win32.cpp:2635-2671 | whole code points followed by the beginning of one are cut exactly there |
| `ConsoleUtf8.PiecesWhole` | adb/sysdeps_win32.cpp:2692-2710 | for any chunking of a valid stream: every piece is whole code points and what waits is a proper beginning of one |

## Left out

- More than one transport at a time in the stream system, TLS and authentication, USB, mDNS, fastboot:
  the packets of one transport do not depend on them.
- The services behind sockets (shell, sync, file transfer) and the smart socket of the host, except the
  serial number parser.
- Version and payload negotiation (`update_version`); the largest payload of each end is a parameter
  between 1 and MAX_PAYLOAD.
- Checksums of packets, which current versions do not send.
- Socket ids are unbounded; the source aborts when the 32-bit counter overflows (adb/sockets.cpp:87-89).
- Locks: every operation of the source that holds one lock for its whole duration is one step here.
- The blocks of a socket queue: the queue is a byte sequence, and one write returns at most 2^31 - 1 bytes.
  Elsewhere than on Windows `adb_writev` passes on at most IOV_MAX blocks (adb/sysdeps/uio.h:40; 1024 here), each
  one payload, which hold less (`CutFits`, `PayloadsAreSmall`); Windows aborts beyond it (adb/sysdeps_win32.cpp:746).
- IOVectors.IOVector.DropFront: requires that the 32-bit counter does not wrap, the exact condition of `DropLoopExact`.
- FdConnections.Connection.DispatchWrites: a single writev returns less than 2^32 bytes, which the same cut to IOV_MAX
  blocks ensures (adb/sysdeps/uio.h:40).
- FdConnections.Connection.Write: the same.
- FdConnections.Connection.OnReadable: a failed read and end of file end the connection and are not modelled.
- ZipArchiveObject.ZipArchive.OpenArchive: for a file that is not indexable the contract does not say which error is
  reported when the specification fails; the functions `Open` and `Find` and the theorems about them cover all files.
- ZipArchiveObject.ZipArchive.ParseZipArchive: the same.
- CdEntryAgreement.DriveBoth: the iteration order of the ordered map is not modelled.
- Deflated entries, data descriptors of the writer on files that cannot seek, `ValidateDataDescriptor` and CRC checks
  of the reader (which the source switches off); the checksum is a parameter of the writer.
- ZipWriterObject.ZipWriter.StartAlignedEntryWithTime: the flags for compression and 32-bit alignment and the
  conversion of a time to a DOS time stamp are not modelled; time and date are parameters.
- ZipReading.MapDirectory: mapping the directory into memory cannot fail.
- ZipExtract.CopyEntry: only a memory region as destination; entries of 4 GiB or more are excluded, see `WholeReadFinishes`.
- ZipExtract.ExtractToMemory: the same.
- SocketTable.Table.Forward: at most MAX_PAYLOAD bytes, which is what the read loop in front of it can return; the loop
  itself is not modelled.
- SocketTable.Table.FlushOutgoing: the same.
- HostService.ParseHostService reads the first character after `vsock:` even if there is none; the model treats that as
  a character other than an opening bracket.
- ConsoleUtf8.Console.Write: the conversion to UTF-16 and the console itself.
- Time-outs, logging and the order in which an event loop picks its events: any order is covered.
