# Verification of sbOS

Dafny models of the parts of sbOS, a UNIX-like kernel and libc in C, that carry the most intricate state, with
proofs of what they promise. `dafny verify dfyconfig.toml` checks the whole project.

The C code works in place, so the models are classes whose methods follow the code branch by branch and loop by
loop. Each method is proved against a specification, and the properties over whole runs are lemmas about those
specifications.

- **ext2** (`BlockCache`, `Ext2*`, `Directory*`, `OpenInodes`). The layers refine one another: the four-entry
  write-back cache shows one logical disk, the bitmaps and the block map give every block one owner, a file is a byte
  sequence, a directory file is a list of bindings. `Ext2.WriteInode` carries the main result: the bytes written are
  there, every other byte of the file is kept, and no other file changes. `LayoutOk` ties every used block to exactly
  one role through a ghost map; `Ext2Example` gives a disk with 4 KiB blocks on which all the invariants hold.
  Over every run of allocations and releases live blocks belong to one allocation each (`Ext2Free.LiveApart`).
- **Kernel heap** (`HeapList`, `Heap`). The list stays address-ordered inside its regions, live payloads overlap
  neither each other nor a header, and their bytes survive every operation on the rest of the heap.
- **TCP and UDP** (`RingBuffer`, `Udp`, `Tcp*`). Protocol steps as functions,
  the connection object proved equal to them, safety over runs in which segments come late, twice, or never.
  Sections 3.3.2, 3.8.6 and 3.10.7 of RFC 9293 are the reference.
- **Processes** (`Mmu`, `Relist`, `Descriptors`, `Scheduler`). Fork's page copy, shared descriptors, round robin.
- **libc** (`Sha1*`, `Qsort`, `Numbers`). Streaming SHA-1 against sections 5.1.1 and 6.1.2 of FIPS 180-4, an exchange
  sort, printing against parsing.

Some promises turn out to hold only under a condition. These are stated as they are, with the exact condition and an
input on which they fail:

- Over every run of every peer, the bytes received are the peer's stream from a position that is its beginning if and
  only if no FIN with data was taken before ESTABLISHED (`TcpReceive.ReceptionExact`): the data on such a FIN is
  dropped but the FIN is counted. All runs of a peer are safe if and only if the peer keeps data off its FIN or all its
  bytes are equal.
- The send window holds after an accepted segment if and only if that segment's right edge is not behind `snd_max`;
  there is no record of the last window update, so reordered updates overrun. The buffered fallback of `tcp_write`
  overruns the window, or reports bytes it has sent as refused, exactly in the cases given.
- `setsockopt` does not look at the outgoing ring. A write after TCP_NODELAY overtakes the bytes in the ring, and the
  stream is in order if and only if either is empty or the two read the same in both orders.
- All bytes a connection accepted reach the wire if and only if the outgoing ring is empty when the peer's FIN arrives,
  or fits the window when the connection is closed. The rest is dropped, and the FIN is sent as usual.
- A FIN is sent once per closed connection, but without ACK if the connection is closed in SYN_RECEIVED or CLOSE_WAIT;
  section 3.10.7.4 of RFC 9293 drops such segments. ESTABLISHED and FIN_WAIT_2 are entered whether our SYN or FIN is
  acknowledged or not, CLOSING is never left, and data on a FIN is lost. `TcpClosing` has the exact conditions.
- A write with an open window accepts nothing exactly when its bytes do not fit the ring and the ring is empty, does
  not fit the window, or leaves it to close part way. With an empty ring that lasts for ever. `TcpSendRuns` has a run
  from the handshake for each of these failures.
- The allocator reads bit p of a group as block p of the group and never looks at `s_first_data_block`. The blocks it
  hands out are free on the disk if and only if that field is 0 (`Ext2FirstBlock.FreeBlocksExact`). With 1 KiB blocks
  it is 1: on the small disk of `Ext2Example` the first allocation is the root directory's block.
- A changed superblock is flushed to byte 0 of the device, but a mount reads byte 1024: it sees the old counters.
- Giving a block back keeps the free counters upper bounds if and only if the group's 16-bit count does not wrap.
- A lookup stops at the first record with inode 0. A new entry is found if and only if no such record comes before it
  and its name is shorter than 256 bytes.
- Unlinking goes by inode number. It is refused with not-found when the inode is that of the very first record;
  otherwise it removes the named record if and only if no earlier record has the same inode. It keeps records inside
  blocks if and only if the removed record does not start a block, and leaves the directory without that record if and
  only if the two sizes it adds fit 16 bits.
- A second unlink of an inode that is open and already unlinked is lost: one `remove_inode` is missing.
- A heap request goes on after a failed `init_heap`. It reads through a NULL pointer if and only if the heap is unset,
  `init_heap` is refused its memory and the next `ksbrk` is not.
- Merging free entries of the heap loses the 20 bytes of the header in between, so that allocating and freeing wears
  the heap down.
- A fork that runs out of frames leaks exactly the frames of the pages it had copied in the table it could not finish;
  frame 0, which stands for none, may be leaked besides.
- A fork that fails at `clone_directory` leaks one reference for every slot of the parent, an exit one for every slot
  from 100 on; references equal slots exactly when neither has happened.
- Printing and parsing are inverse unless zeros fill up the right of a number other than 0. Zeros on the left of a
  negative number come before its sign.

## Model

| member | source | states |
|---|---|---|
| `RingBuffers.PutChunk` | kernel/lib/ringbuffer.c:36-61 | copying a chunk that fits to the write pointer, with wrap-around, appends it to the ring's contents |
| `RingBuffers.TakeChunk` | kernel/lib/ringbuffer.c:63-85 | a run at the read pointer is the front of the contents, and stepping over it leaves the rest |
| `RingBuffers.RingBuffer.Used` | kernel/lib/ringbuffer.c:19-26 | the number of bytes in the ring |
| `RingBuffers.RingBuffer.Unused` | kernel/lib/ringbuffer.c:28-34 | the room left, one byte less than the buffer |
| `RingBuffers.RingBuffer.Write` | kernel/lib/ringbuffer.c:36-61 | the longest prefix of the data that fits joins the end; its length is returned |
| `RingBuffers.RingBuffer.Read` | kernel/lib/ringbuffer.c:63-85 | hands out and removes the front, at most the length asked for |
| `RingBuffers.RingBuffer.Free` | kernel/lib/ringbuffer.c:91-97 | the ring is empty and has no buffer |
| `Udp.FramesInjective` | kernel/network/udp.c:52-63 | the framed bytes determine the datagrams |
| `Udp.UdpConnection.Enqueue` | kernel/network/udp.c:50-63 | the frame goes in whole when it fits, else nothing does |
| `Udp.UdpConnection.HandleUdp` | kernel/network/udp.c:27-64 | a packet with the connection's two ports and its own length, all in network order, joins the queue with its sender if there is room; every other packet changes nothing |
| `Udp.PacketFields` | kernel/network/udp.c:33-36 | ports, length and payload of a packet in network order are read as they were written |
| `Udp.UdpConnection.RecvFrom` | kernel/socket.c:365-403 | takes the first datagram whole, returns it cut to the length asked for, drops its tail |
| `Udp.StepInOrder` | kernel/network/udp.c:27-64 | one arrival or receive loses, repeats and reorders nothing and never over-fills the ring |
| `Udp.DatagramsInOrder` | kernel/socket.c:365-403 | for every interleaving, what was received is the accepted datagrams in order, each cut to the length asked for |
| `TcpConnections.TcpConnection.Accepting` | kernel/socket.c:76-126 | a connection made for a SYN starts in LISTEN with zero counters and empty rings |
| `TcpConnections.TcpConnection.Connecting` | kernel/socket.c:471-524 | a connection made by connect is in SYN_SENT with its SYN sent |
| `TcpConnections.TcpConnection.SendEmptyPayload` | kernel/network/tcp.c:92-122 | the segment sent and the counters it moves |
| `TcpConnections.TcpConnection.DestroyConnection` | kernel/network/tcp.c:126-129 | the connection is closed and its rings are gone |
| `TcpConnections.TcpConnection.TcpCloseConnection` | kernel/network/tcp.c:131-156 | which states send a FIN, and where they go; `TcpControl.CloseEstablished` and `CloseOthers` say which segment that is |
| `TcpConnections.TcpConnection.TcpCanSend` | kernel/network/tcp.c:158-163 | what can still be sent: the right edge of the window minus `snd_max` when that is from 0 to 65535, the difference plus 65536 when `snd_max` is ahead, 0 when closed |
| `TcpConnections.TcpConnection.SendTcpPacket` | kernel/network/tcp.c:165-206 | the recursive sender in segments of at most 1000 bytes |
| `TcpConnections.TcpConnection.DispatchSegment` | kernel/network/tcp.c:271-354 | the state switch, every state and flag, as `TcpControl` spells it out state by state |
| `TcpConnections.TcpConnection.HandleTcp` | kernel/network/tcp.c:234-355 | a segment for the connection is judged and taken as `TcpControl` and `TcpReceive` say |
| `TcpConnections.TcpConnection.TcpSyncBuffer` | kernel/socket.c:240-262 | the front of the outgoing ring goes out; whether the ring is empty afterwards |
| `TcpConnections.TcpConnection.TcpWrite` | kernel/socket.c:327-363 | all four ways a write ends, and their effect |
| `TcpConnections.TcpConnection.Setsockopt` | kernel/socket.c:526-552 | all four results; only the option changes, whatever the ring holds |
| `TcpConnections.TcpConnection.TcpRead` | kernel/socket.c:282-293 | the front of the incoming ring, or the reason there is none |
| `TcpConnections.TcpConnection.TcpClose` | kernel/socket.c:269-280 | the ring is flushed, the connection closed and stripped |
| `TcpConnections.TcpConnection.TcpFlushBuffers` | kernel/socket.c:150-180 | what the periodic flush does to one connection |
| `TcpConnections.TcpConnection.TcpFlushAcks` | kernel/socket.c:182-201 | a pending acknowledgement goes out, once |
| `TcpControl.StartExact` | kernel/socket.c:471-524 | what a connection has sent, and its numbers and rings, when it starts |
| `TcpControl.HeaderExact` | kernel/network/tcp.c:245-269 | window and acknowledgement are taken exactly from segments in order that acknowledge what is outstanding |
| `TcpControl.ListenExact` | kernel/network/tcp.c:272-279 | a SYN in LISTEN is answered by one SYN and ACK of it and leads to SYN_RECEIVED; nothing else does anything |
| `TcpControl.SynSentExact` | kernel/network/tcp.c:287-294 | SYN and ACK in SYN_SENT are answered by one ACK and lead to ESTABLISHED |
| `TcpControl.SynReceivedExact` | kernel/network/tcp.c:280-286 | an ACK in order leads from SYN_RECEIVED to ESTABLISHED |
| `TcpControl.EstablishedExact` | kernel/network/tcp.c:295-300 | a FIN in order is answered by one ACK of it and leads to CLOSE_WAIT; no other segment leaves ESTABLISHED or is answered at once |
| `TcpControl.FinWait1Exact` | kernel/network/tcp.c:313-329 | ACK, FIN or both lead to FIN_WAIT_2, CLOSING or TIME_WAIT; a FIN is answered by one ACK of it |
| `TcpControl.FinWait2Exact` | kernel/network/tcp.c:337-344 | a FIN is answered by one ACK of it and ends the connection |
| `TcpControl.QuietExact` | kernel/network/tcp.c:345-354 | in CLOSE_WAIT, CLOSING, TIME_WAIT and CLOSED segments move and send nothing |
| `TcpControl.CloseEstablished` | kernel/network/tcp.c:139-146 | a close in ESTABLISHED sends data that reports `rcv_nxt`, then one FIN and ACK with the next number, and enters FIN_WAIT_1 |
| `TcpControl.CloseOthers` | kernel/network/tcp.c:132-152 | a close in SYN_RECEIVED or CLOSE_WAIT sends one FIN with the next number, without ACK |
| `TcpControl.CloseQuiet` | kernel/network/tcp.c:153-156 | a close in any other state sends nothing |
| `TcpControl.OthersExact` | kernel/socket.c:150-201 | writes and flushes send segments with ACK of `rcv_nxt` only; a flush ends TIME_WAIT and FIN_WAIT_2 |
| `TcpControl.DueAckSent` | kernel/socket.c:182-201 | a due acknowledgement is one segment with ACK of `rcv_nxt` |
| `TcpClosing.OneFin` | kernel/network/tcp.c:131-156 | over every run exactly one FIN, with the last number, is sent if the connection was closed in SYN_RECEIVED, ESTABLISHED or CLOSE_WAIT, and none otherwise |
| `TcpClosing.AlwaysAcknowledging` | kernel/network/tcp.c:131-156 | over every run every segment but a SYN carries ACK if and only if the connection was not closed in SYN_RECEIVED or CLOSE_WAIT |
| `TcpClosing.DueUntilSent` | kernel/network/tcp.c:295-312 | an acknowledgement due for data stays due until a segment has carried it |
| `TcpClosing.OursFirst` | kernel/network/tcp.c:313-344 | closing first: FIN_WAIT_1, FIN_WAIT_2, CLOSED, with the peer's FIN acknowledged |
| `TcpClosing.OursFirstAtOnce` | kernel/network/tcp.c:313-319 | closing first, answered by FIN and ACK: FIN_WAIT_1, TIME_WAIT, CLOSED |
| `TcpClosing.PeerFirst` | kernel/network/tcp.c:131-137 | closed by the peer first: CLOSE_WAIT, then CLOSED with one FIN |
| `TcpClosing.FinDataExact` | kernel/network/tcp.c:295-300 | the answer to a FIN acknowledges the whole segment if and only if it carries no data; data on it is not taken |
| `TcpClosing.ClosingForever` | kernel/network/tcp.c:323-328 | over every continuation CLOSING is never left |
| `TcpClosing.FinAcknowledgedExact` | kernel/network/tcp.c:313-322 | FIN_WAIT_1 is left with our FIN acknowledged if and only if the segment acknowledges everything sent |
| `TcpClosing.SynAcknowledgedExact` | kernel/network/tcp.c:280-294 | ESTABLISHED is entered with our SYN acknowledged if and only if the segment acknowledges it |
| `TcpClosing.UnacknowledgedSyn` | kernel/network/tcp.c:280-286 | a run from the start into ESTABLISHED with our SYN not acknowledged |
| `TcpClosing.UnacknowledgedFin` | kernel/network/tcp.c:320-322 | a run from the start to the end of the connection with our FIN not acknowledged |
| `TcpClosing.UnacknowledgingFin` | kernel/network/tcp.c:132-134 | a run from the start that sends a FIN without ACK |
| `TcpReceive.HandshakeTaken` | kernel/network/tcp.c:245-294 | before ESTABLISHED no data is taken but SYN and FIN are counted |
| `TcpReceive.DataTaken` | kernel/network/tcp.c:295-312 | in ESTABLISHED a payload is taken whole or not at all, and counted |
| `TcpReceive.StepInv` | kernel/network/tcp.c:208-355 | any event keeps the received bytes a run of the peer's stream from the current shift on, with `rcv_nxt` at its end; only a FIN with data taken before ESTABLISHED moves the shift |
| `TcpReceive.ReceptionExact` | kernel/network/tcp.c:208-355 | over every run of every peer, what was received is the stream from the shift on, and that is the beginning, and `rcv_nxt` the number of the next byte, if and only if no FIN with data was taken before ESTABLISHED |
| `TcpReceive.RunIsPrefix` | kernel/network/tcp.c:208-355 | over every run of every peer in which no FIN with data is taken before ESTABLISHED, bytes read plus bytes waiting are a prefix of the stream |
| `TcpReceive.LateRunShifts` | kernel/network/tcp.c:268-286 | the run in which data on a FIN during the handshake shifts everything by one byte |
| `TcpReceive.ReceiveSafetyExact` | kernel/network/tcp.c:208-355 | all runs of a peer have the prefix property if and only if the peer keeps data off its FIN or its bytes are all equal |
| `TcpReceive.NothingAfterEstablished` | kernel/network/tcp.c:313-354 | once ESTABLISHED is left nothing more is received and it is never entered again |
| `TcpReceive.NothingEverAfter` | kernel/network/tcp.c:313-354 | over every continuation of a run that has left ESTABLISHED, the bytes received are at most those received by then |
| `TcpSend.SentExact` | kernel/network/tcp.c:165-178 | how much of a payload goes out: all, unless the window closes exactly at a multiple of 1000 |
| `TcpSend.SendPacketExact` | kernel/network/tcp.c:165-206 | the bytes that went out, tiled under consecutive sequence numbers, and the reported outcome |
| `TcpSend.ArriveWindowExact` | kernel/network/tcp.c:249-266 | `snd_max` stays in the window if and only if the segment's right edge is not behind it; `snd_una` never decreases |
| `TcpSend.ReorderedUpdatesOverrun` | kernel/network/tcp.c:265-266 | two window updates in the wrong order with a write between them overrun the window |
| `TcpSendRuns.ReorderedRunOverruns` | kernel/network/tcp.c:249-266 | such a run from the handshake on: updates of 3000 and 2000 around a write of 3000 |
| `TcpSend.SyncExact` | kernel/socket.c:240-262 | a flush moves as much as the window allows from ring to wire and keeps the stream |
| `TcpSend.WriteWindowExact` | kernel/socket.c:327-363 | a write stays in the window, with the exact exception of the buffered fallback |
| `TcpSend.WriteStreamExact` | kernel/socket.c:327-363 | what a write reports as accepted is what joins the stream, if and only if the fallback does not stop part way and the write overtakes nothing in the ring |
| `TcpSend.HonestNoDelay` | kernel/socket.c:344-349 | a write without delay keeps the stream if and only if its bytes and the ring read the same in both orders |
| `TcpSend.NeverOvertakes` | kernel/socket.c:526-552 | over every run in which TCP_NODELAY is switched on with an empty ring no write overtakes another |
| `TcpSendRuns.OptionReorders` | kernel/socket.c:526-552 | a run from the handshake on: a write, TCP_NODELAY, another write; the second is on the wire first |
| `TcpSend.WriteNothingExact` | kernel/socket.c:327-363 | exactly when a write with an open window accepts nothing |
| `TcpSendRuns.StuckForever` | kernel/socket.c:327-363 | with an empty ring and a window of 8192 or more, writes of 8192 bytes or more are never accepted, over every run of such writes and flushes |
| `TcpSendRuns.FallbackOverruns` | kernel/socket.c:327-363 | a run from the handshake on: window 6500, 5000 bytes in the ring, a write of 4000 overruns the window |
| `TcpSendRuns.FallbackRefuses` | kernel/socket.c:327-363 | a run from the handshake on: window 6000, 5000 bytes in the ring, a write of 4000 is refused although 1000 of its bytes went out |
| `TcpSend.CarefulWriteExact` | kernel/socket.c:327-363 | a write is careful if and only if it stays inside the window and reports what it adds to the stream |
| `TcpSend.SendSafety` | kernel/socket.c:240-363 | over every run whose writes are careful and whose segments do not move the window back behind `snd_max`, the wire carries the accepted bytes in order; while ESTABLISHED nothing is missing from wire and ring together and `snd_max` is inside the window; afterwards the wire has a prefix of them |
| `TcpEnd.CloseExact` | kernel/socket.c:269-280 | closing puts all accepted bytes on the wire if and only if the window holds the ring; otherwise exactly what it holds |
| `TcpEnd.SentEver` | kernel/network/tcp.c:313-354 | once ESTABLISHED is left no event puts data on the wire, over every continuation |
| `TcpEnd.LeavingExact` | kernel/socket.c:240-280 | over every careful run, the accepted bytes are all on the wire in the end if and only if the ring is empty when ESTABLISHED is left, or the window holds it at a close |
| `TcpSendRuns.LostAtClose` | kernel/socket.c:269-280 | a run from the handshake on: 1600 bytes accepted, 1000 of them ever sent |
| `TcpSendRuns.LostAtFin` | kernel/network/tcp.c:295-312 | a run from the handshake on: bytes in the ring when the peer's FIN arrives are never sent |
| `BlockCaches.SeenElsewhere` | kernel/fs/ext2.c:172-181 | replacing a cache entry after writing it back changes no block's logical contents |
| `BlockCaches.BlockCache.Find` | kernel/fs/ext2.c:145-158 | the entry of the block, or the last unused entry |
| `BlockCaches.BlockCache.Oldest` | kernel/fs/ext2.c:160-170 | an entry used least recently |
| `BlockCaches.BlockCache.Replace` | kernel/fs/ext2.c:172-181 | eviction writes a changed entry back, loads the block, and changes nothing logical |
| `BlockCaches.BlockCache.Read` | kernel/fs/ext2.c:145-187 | a read returns the logical bytes and changes nothing logical; the block is then in the cache, in place of itself, of an unused entry, or of one used least recently |
| `BlockCaches.BlockCache.Write` | kernel/fs/ext2.c:207-225 | a write changes exactly its range of its block's logical bytes |
| `BlockCaches.BlockCache.Flush` | kernel/fs/ext2.c:189-205 | changes nothing logical, the device then equals the logical disk, a superblock marked as changed is at byte 0, and what a mount reads at byte 1024 is as before |
| `BlockCaches.MountReadsOld` | kernel/fs/ext2.c:201-204 | a changed superblock is flushed and a mount reads the old one |
| `Ext2Alloc.ScanBitmap` | kernel/fs/ext2.c:528-547 | the lowest clear bits, as many as needed, are taken and set; a short result means none is left |
| `Ext2Alloc.AllTaken` | kernel/fs/ext2.c:517-557 | falling short over all groups means every free block was taken |
| `Ext2Alloc.TakesCounters` | kernel/fs/ext2.c:548-555 | the counters, decremented once per group and call, never fall below the number of free blocks |
| `Ext2Fs.Ext2.GetGroupDescriptor` | kernel/fs/ext2.c:233-237 | the descriptor's bitmap, table and count fields |
| `Ext2Fs.Ext2.AllocateInGroup` | kernel/fs/ext2.c:519-555 | one group's lowest free blocks, as many as needed, become marked and nothing else changes |
| `Ext2Fs.Ext2.GetFreeBlocks` | kernel/fs/ext2.c:510-558 | the lowest free blocks are marked and nothing else; all that were asked for, if that many are free |
| `Ext2Fs.Ext2.GetFreeBlock` | kernel/fs/ext2.c:560-566 | one such block, or -1 exactly when none is free |
| `Ext2Fs.Ext2.ClearBlockBitmap` | kernel/fs/ext2.c:594-618 | exactly this block loses its mark; the counters still bound the free blocks if and only if the group's 16-bit count did not wrap |
| `Ext2Free.ReleasedOthers` | kernel/fs/ext2.c:594-618 | a file that does not own a released block keeps its blocks and bytes |
| `Ext2Free.NeverTwice` | kernel/fs/ext2.c:510-558 | blocks handed out are pairwise distinct and in no file and no metadata |
| `Ext2Free.LiveMarked` | kernel/fs/ext2.c:510-618 | over every run a block handed out and not given back is marked |
| `Ext2Free.LiveApart` | kernel/fs/ext2.c:510-618 | over every run of allocations and releases a block is in at most one live allocation |
| `Ext2FirstBlock.FreeBlocksExact` | kernel/fs/ext2.c:510-558 | the blocks handed out are free in the bitmap's own meaning if and only if the first data block is 0 |
| `Ext2Example.RootHandedOut` | kernel/fs/ext2.c:540-541 | on a disk with 1 KiB blocks the first block handed out is the root directory's, which the bitmap has in use |
| `Ext2Example.FormattedFiles` | kernel/fs/ext2.c:233-237 | a disk with 4 KiB blocks meets every invariant; its root directory holds "." and ".." |
| `Ext2Example.EnterAndFind` | kernel/fs/ext2.c:1046-1077 | on that disk a name is entered into the root directory and found |
| `Ext2Free.FilesApart` | kernel/fs/ext2.c:672-717 | no two files share a block and no file uses one twice |
| `Ext2Map.GrowDirect` | kernel/fs/ext2.c:672-676 | block i is b, lower blocks are where they were, in the direct range |
| `Ext2Map.GrowSingle` | kernel/fs/ext2.c:677-688 | the same in the singly indirect range |
| `Ext2Map.GrowDouble` | kernel/fs/ext2.c:689-715 | the same in the doubly indirect range, across its inner blocks |
| `Ext2Fs.Ext2.GetSinglyBlockIndex` | kernel/fs/ext2.c:441-446 | pointer i of an indirect block |
| `Ext2Fs.Ext2.GetBlock` | kernel/fs/ext2.c:487-508 | the block number the inode and its indirect blocks give for block i |
| `Ext2Fs.Ext2.WriteToIndirectBlock` | kernel/fs/ext2.c:666-670 | one pointer of an indirect block, index taken modulo its capacity |
| `Ext2Fs.Ext2.AllocateSingle` | kernel/fs/ext2.c:677-688 | placing a block in the singly indirect range, allocating its indirect block first when needed |
| `Ext2Fs.Ext2.AllocateDouble` | kernel/fs/ext2.c:689-715 | placing a block in the doubly indirect range, allocating up to two blocks for it |
| `Ext2Fs.Ext2.AllocateBlock` | kernel/fs/ext2.c:672-717 | afterwards `get_block(i)` is the block and all lower ones are unchanged; it fails only for lack of free blocks |
| `Ext2Layout.InodesApart` | kernel/fs/ext2.c:270-282 | two inodes never overlap in their table |
| `Ext2Format.InodeFields` | kernel/fs/ext2.h:78-100 | the accessors read the fields of an inode that is laid out field after field |
| `Ext2Format.DescriptorAt` | kernel/fs/ext2.h:66-76 | the same for the descriptor of a group, at its place on the disk |
| `Ext2Format.InodeAddress` | kernel/fs/ext2.c:270-282 | the byte address of an inode is that of its table plus its place times the size of an inode |
| `Ext2Format.MapPlaces` | kernel/fs/ext2.c:487-508 | which pointer gives block i in each of the three ranges |
| `Ext2Format.BytePlace` | kernel/fs/ext2.c:796-820 | byte r of block q of a file, zeros where there is no block |
| `Ext2Format.BitPlace` | kernel/fs/ext2.c:532-541 | bit p of a block bitmap by its value in its byte |
| `Ext2Fs.Ext2.BlockContainingInode` | kernel/fs/ext2.c:270-282 | block and offset of an inode, inside one block of its table |
| `Ext2Fs.Ext2.GetInodeHeader` | kernel/fs/ext2.c:287-305 | the inode, from the one-inode cache or the disk, and the cache agrees with the disk |
| `Ext2Fs.Ext2.WriteInodeHeader` | kernel/fs/ext2.c:307-318 | the inode's bytes are replaced and the one-inode cache is dropped if it held it |
| `Ext2Write.InodeWriteHeaders` | kernel/fs/ext2.c:307-318 | the inode written reads back and every other inode is as it was |
| `Ext2File.ClipSize` | kernel/fs/ext2.c:790-792 | the 64-bit arithmetic that cuts a read to the file |
| `Ext2Fs.Ext2.ReadInode` | kernel/fs/ext2.c:777-823 | exactly the file's bytes from the offset on, up to the size or the end, holes as zeros; nothing beyond the end |
| `Ext2Fs.Ext2.GrowTo` | kernel/fs/ext2.c:743-750 | the file has its new blocks in place, the old ones where they were, no other file touched |
| `Ext2Fs.Ext2.WriteData` | kernel/fs/ext2.c:755-769 | exactly the range of file bytes is overwritten, block by block |
| `Ext2Write.StepsContents` | kernel/fs/ext2.c:719-775 | growth, data and inode together leave the data in place and every earlier byte outside it |
| `Ext2Write.StepsOthers` | kernel/fs/ext2.c:719-775 | no other inode and no other file's bytes change on the way |
| `Ext2Fs.Ext2.WriteInode` | kernel/fs/ext2.c:719-775 | the data is at the offset or at the end, other bytes are kept, other files unchanged, the device up to date |
| `Directory.DecodeEncode` | kernel/fs/ext2.c:333-356 | records read back from their bytes |
| `Directory.EncodeDecode` | kernel/fs/ext2.c:333-356 | a file tiled by records is the bytes of those records |
| `Directory.Search` | kernel/fs/ext2.c:320-358 | the inode of the first record with the name before the first record with inode 0, else 0 |
| `Directory.FindFreePosition` | kernel/fs/ext2.c:991-1044 | the first record with room that passes the block test, or the end of the file, and the room there |
| `Directory.FitsExact` | kernel/fs/ext2.c:1009-1022 | where records keep to their blocks the block test refuses nothing that has room |
| `Directory.AddedBytes` | kernel/fs/ext2.c:1046-1077 | the two writes of a split, or the appended block, are the bytes of the new record list |
| `Directory.EntryAddedRecord` | kernel/fs/ext2.c:1046-1077 | the new record has the inode, kind and name asked for, in its fields and in its bytes, and every other record keeps its own |
| `Directory.EntryAddedLookup` | kernel/fs/ext2.c:1046-1077 | a free name gets its inode if and only if no record with inode 0 comes before the new one; all other lookups are as before |
| `Directory.EntryAddedBlocked` | kernel/fs/ext2.c:1046-1077 | records stay inside blocks and the file a whole number of blocks |
| `Directory.RemoveRecord` | kernel/fs/ext2.c:1235-1256 | the record before swallows the first one with the inode, and the bytes are the directory without it if and only if the two sizes fit 16 bits; refused when it is the very first |
| `Directory.RemovedLookup` | kernel/fs/ext2.c:1249-1254 | with distinct names exactly one binding goes |
| `Directory.UnlinkExact` | kernel/fs/ext2.c:1220-1263 | where the record is not the very first, the named binding, and only it, goes if and only if no earlier record has its inode |
| `Directory.RemovedBlocked` | kernel/fs/ext2.c:1249-1254 | records stay inside blocks if and only if the removed one did not start a block |
| `DirectoryExample.LinkTaken` | kernel/fs/ext2.c:1238-1256 | records ".", "a" and "b", the last two for one inode: unlinking "b" takes "a" out |
| `DirectoryExample.MergeCrosses` | kernel/fs/ext2.c:1249-1254 | two blocks of one record each become one record that crosses the boundary |
| `DirectoryExample.EntryHidden` | kernel/fs/ext2.c:1046-1077 | an entry put behind a record with inode 0 is not found |
| `Directory.WrapBreaks` | kernel/fs/ext2.c:1249-1254 | a merge whose size wraps over zeros leaves a file that is no chain of records |
| `DirectoryExample.SizeWraps` | kernel/fs/ext2.c:1249-1254 | records of 40000 and 30000 bytes are such a case |
| `Ext2Directory.GetInodeInDirectory` | kernel/fs/ext2.c:320-358 | lookup on the file system, up to the first record with inode 0; the empty name is the directory |
| `Ext2Directory.CreateEntry` | kernel/fs/ext2.c:1046-1077 | the directory file gains exactly one record, whose bytes are the inode, kind and name given, and keeps the others; other files unchanged |
| `Ext2Directory.EnterName` | kernel/fs/ext2.c:1203-1209 | the same; the new record holds the name cut to its length modulo 256 |
| `Ext2Directory.NameEntered` | kernel/fs/ext2.c:1203-1209 | a free name is bound by it if and only if it is shorter than 256 bytes and no record with inode 0 comes before it |
| `Ext2Directory.TakeRecord` | kernel/fs/ext2.c:1230-1258 | the directory file is untouched, or has the merge written, which is the directory without the record if and only if the two sizes fit 16 bits |
| `Ext2Directory.Unlink` | kernel/fs/ext2.c:1220-1263 | every outcome, the directory after it, and what the list of open inodes is told |
| `OpenInodes.OpenList.AddOpenInode` | kernel/fs/ext2.c:36-64 | one node per open inode in a doubly linked list, one more reference |
| `OpenInodes.OpenList.RemovePossiblyOpenInode` | kernel/fs/ext2.c:66-78 | removed now if not open, marked otherwise |
| `OpenInodes.OpenList.DerefOpenInode` | kernel/fs/ext2.c:80-111 | one reference less; at the last the node goes and a marked inode is removed |
| `OpenInodes.HeldExact` | kernel/fs/ext2.c:36-111 | over every run an inode has a node exactly while it is open, with the right count |
| `OpenInodes.RemovalsExact` | kernel/fs/ext2.c:66-111 | over every run unlinks equal removals made, pending and lost to repetition |
| `OpenInodes.RemovedOnceEach` | kernel/fs/ext2.c:66-111 | once closed, removals equal unlinks if and only if no unlink was repeated while pending |
| `OpenInodes.NeverWhileOpen` | kernel/fs/ext2.c:66-111 | no inode is removed while it is open |
| `OpenInodes.SecondUnlinkLost` | kernel/fs/ext2.c:66-78 | two unlinks of an open inode, one removal |
| `HeapList.LiveApart` | kernel/kmalloc.c:137-293 | live payloads overlap neither each other nor any header |
| `HeapList.MergedOk` | kernel/kmalloc.c:165-186 | merging keeps the list ordered and inside its regions, and never crosses one |
| `HeapList.MergedLive` | kernel/kmalloc.c:165-186 | merging changes no allocation |
| `HeapList.SplitOk` | kernel/kmalloc.c:217-236 | a cut keeps the list ordered and inside its regions |
| `HeapList.SplitLive` | kernel/kmalloc.c:217-236 | a cut adds exactly one allocation |
| `HeapList.MergedTotal` | kernel/kmalloc.c:165-186 | merging loses 20 bytes of what the list accounts for |
| `HeapList.SplitTotal` | kernel/kmalloc.c:217-236 | cutting loses none |
| `HeapList.GrownTotal` | kernel/kmalloc.c:77-103 | growing the last entry loses 20 bytes, a new region none |
| `HeapList.AllocateThenFree` | kernel/kmalloc.c:217-252 | cutting an entry, freeing and merging leaves it 20 bytes smaller |
| `HeapList.LastFree` | kernel/kmalloc.c:77-103 | the last entry of the list is free and closes its region |
| `Heap.KernelHeap.InitHeap` | kernel/kmalloc.c:63-75 | one free entry, or no heap |
| `Heap.KernelHeap.AddHeapMemory` | kernel/kmalloc.c:77-103 | allocations and bytes are kept; on success the last entry holds the request; it faults if and only if the heap is unset and memory is granted |
| `Heap.KernelHeap.MergeHeaders` | kernel/kmalloc.c:165-186 | merges exactly when both entries are free and of one region |
| `Heap.KernelHeap.FindFreeEntry` | kernel/kmalloc.c:137-163 | the first free entry with room, every free one before it merged as far as possible and still too small; never fails when the last entry has room |
| `Heap.KernelHeap.Cut` | kernel/kmalloc.c:217-236 | exactly one new allocation, all other bytes kept |
| `Heap.KernelHeap.IntKmalloc` | kernel/kmalloc.c:206-237 | a new allocation or none; after memory was added one retry always succeeds; it reads through NULL if and only if the heap is unset, the first `ksbrk` is refused and the second granted |
| `Heap.FirstRequestFaults` | kernel/kmalloc.c:206-216 | the first request, with `ksbrk` refusing once and then giving, faults |
| `Heap.KernelHeap.Kmalloc` | kernel/kmalloc.c:255-262 | the same, other allocations' bytes kept |
| `Heap.KernelHeap.Kfree` | kernel/kmalloc.c:239-252 | exactly this allocation ends, all other bytes kept |
| `Heap.KernelHeap.Krealloc` | kernel/kmalloc.c:271-293 | the allocation has its new size and the bytes both sizes share; on failure nothing changes |
| `Mmu.FrameMap.GetFreeFrame` | kernel/arch/i386/mmu.c:160-185 | the lowest unused frame from the start of the search on, or none is left there |
| `Mmu.FrameMap.WriteToFrame` | kernel/arch/i386/mmu.c:187-208 | exactly one frame is marked or cleared; a used frame is refused |
| `Mmu.Memory.ClonePages` | kernel/arch/i386/mmu.c:225-243 | every present page gets the flags of the original and a frame of its own that was free; on failure those before the failing one have |
| `Mmu.Memory.CopyData` | kernel/arch/i386/mmu.c:261-270 | the new frames hold what the old ones held, no other frame changes |
| `Mmu.Memory.CloneTable` | kernel/arch/i386/mmu.c:214-278 | a full copy of the table in free frames; the directory ends as it began despite the lent slot; a failure leaks exactly the frames of the pages it had come to |
| `Mmu.Memory.CloneDirectory` | kernel/arch/i386/mmu.c:280-341 | below slot 642 a table of the parent's own, and every stack table, is a table of the child's own, each page with the parent's flags and contents in a frame that was free; every other slot is the kernel's; the parent unchanged; failure disturbs nothing in use and leaks exactly the frames of the unfinished table, but for frame 0 |
| `Mmu.Memory.ForkInherits` | kernel/arch/i386/mmu.c:301-338 | the same for one slot of the directory, by slot number |
| `Mmu.ForkedApart` | kernel/arch/i386/mmu.c:214-341 | no two pages of the child share a frame, and none has a frame that was in use |
| `Mmu.Memory.FreePageDirectory` | kernel/arch/i386/mmu.c:498-524 | exactly the frames of the directory, of its tables that are not the kernel's, and of their present pages with a frame other than 0 become free |
| `Relists.Relist.FindFreeEntry` | kernel/lib/relist.c:62-77 | the lowest slot not in use |
| `Relists.Relist.Add` | kernel/lib/relist.c:79-105 | the value is in the lowest free slot, the table a word longer if it was full |
| `Relists.Relist.Remove` | kernel/lib/relist.c:107-120 | exactly this slot is empty |
| `Relists.Relist.Set` | kernel/lib/relist.c:122-130 | exactly this slot holds the value |
| `Relists.Relist.Get` | kernel/lib/relist.c:132-148 | the value, and whether the table ends before the slot |
| `Relists.Relist.Clone` | kernel/lib/relist.c:36-60 | an equal table, or one without slots when memory is lacking |
| `Descriptors.Vfs.CreateFd` | kernel/fs/vfs.c:65-80 | the file is in the lowest free slot with one reference |
| `Descriptors.Vfs.Dup` | kernel/fs/vfs.c:499-510 | the lowest free slot holds the file too, one more reference; both failures |
| `Descriptors.Vfs.Dup2` | kernel/fs/vfs.c:512-532 | the slot holds the other's file; the close hook runs exactly if the old file lost its last reference |
| `Descriptors.Vfs.CloseProcess` | kernel/fs/vfs.c:340-358 | the slot is empty, one reference less, the close hook exactly at the last |
| `Descriptors.Vfs.Fork` | kernel/sched/scheduler.c:120-149 | every slot of the child is counted; failing at `clone_directory` leaks exactly those |
| `Descriptors.Vfs.FreeProcess` | kernel/sched/scheduler.c:191-215 | slots 0 to 99 are closed, the references of later slots leaked |
| `Descriptors.LeakExact` | kernel/sched/scheduler.c:199-200 | nothing is leaked if and only if no slot from the bound on was in use |
| `Descriptors.LeakAtFork` | kernel/sched/scheduler.c:120-149 | one open file, a fork that fails at `clone_directory`: two references, one slot |
| `Descriptors.LeakAtExit` | kernel/sched/scheduler.c:199-200 | an exit with slot 100 in use: its file keeps a reference in no slot and is never closed |
| `Scheduler.IssetFdhalt` | kernel/sched/scheduler.c:464-515 | blocked exactly when something is waited for and nothing has happened |
| `Scheduler.IsHalted` | kernel/sched/scheduler.c:517-529 | halted by a flag or blocked; a dead task is not |
| `Scheduler.EligibleExact` | kernel/sched/scheduler.c:533-564 | when a task that is asleep, interrupted, dead, idle or has a ready file may run |
| `Scheduler.NextTask` | kernel/sched/scheduler.c:533-564 | the first eligible task in cyclic order after the current one, over as many passes as it takes |
| `Scheduler.NotPast` | kernel/sched/scheduler.c:533-564 | no eligible task is passed over |
| `Scheduler.FairWithinN` | kernel/sched/scheduler.c:533-564 | in a queue of n tasks a task that stays eligible is chosen within n choices, whatever the others do |
| `Sha1.ZeroBytesLeast` | userland/libc/tb/sha1.c:55-63 | the zero padding is the least that section 5.1.1 of FIPS 180-4 allows |
| `Sha1.ReverseLoad` | userland/libc/tb/sha1.c:37-40 | reversing a little-endian word gives the big-endian one |
| `Sha1.AddBlock` | userland/libc/tb/sha1.c:115-159 | one step of section 6.1.2 of FIPS 180-4 |
| `Sha1Bits.ChooseBits` | userland/libc/tb/sha1.c:77-91 | rounds 0 to 19 choose between two words bit by bit |
| `Sha1Bits.MajorityBits` | userland/libc/tb/sha1.c:77-91 | rounds 40 to 59 take the majority of three words bit by bit |
| `Sha1Bits.OddBits` | userland/libc/tb/sha1.c:77-91 | all other rounds take their parity bit by bit |
| `Sha1Bits.RotlBit` | userland/libc/tb/sha1.c:109-113 | bit i moves to bit i + n around the word |
| `Sha1Bits.ConstantRoots` | userland/libc/tb/sha1.c:93-107 | the four constants are square roots of 2, 3, 5 and 10 |
| `Sha1Example.AbcHash` | userland/libc/tb/sha1.c:115-159 | the example of one block, round by round |
| `Sha1Example.AbcDigest` | userland/libc/tb/sha1.c:161-178 | SHA-1 of "abc" |
| `Sha1.PadMessage` | userland/libc/tb/sha1.c:42-75 | the rest of the message padded to one or two blocks, with the length of the whole |
| `Sha1.Context.Update` | userland/libc/tb/sha1.c:180-200 | however the data is cut, the context has taken in all of it |
| `Sha1.Context.Final` | userland/libc/tb/sha1.c:161-178 | the digest is SHA-1 of everything taken in |
| `Sha1.HashPieces` | userland/libc/tb/sha1.c:161-200 | every way of cutting a message gives SHA-1 of the whole |
| `Sorting.Exchange` | userland/libc/stdlib/qsort.c:22-27 | one exchange keeps the prefix sorted and element i the greatest seen |
| `Sorting.Qsort` | userland/libc/stdlib/qsort.c:5-30 | a permutation for every comparator, sorted for every total preorder |
| `Numbers.ParseDigits` | userland/libc/stdlib/strtoll.c:47-62 | the value of the digits, or LLONG_MAX with ERANGE exactly when they stand for more |
| `Numbers.Strtoll` | userland/libc/stdlib/strtoll.c:10-72 | spaces, sign, prefix, digits, end and error for every string without a minus sign |
| `Numbers.WrittenParses` | userland/libc/stdlib/strtoll.c:10-72 | spaces, a plus sign, 0, 0x or no prefix, digits and anything behind: the value of the digits in the base given or found, and where they end |
| `Numbers.DigitsExact` | userland/libc/stdlib/strtoul.c:8-22 | which characters are which digits, small and capital letters alike |
| `Numbers.SpacesExact` | userland/libc/stdlib/strtoll.c:16-17 | which characters are skipped |
| `Numbers.DigitsOf` | userland/libc/stdio/vfprintf.c:31-38 | the digits backwards, at most 21 of them |
| `Numbers.FprintNum` | userland/libc/stdio/vfprintf.c:18-64 | sign, digits and padding on the right side |
| `Numbers.PrintedShape` | userland/libc/stdio/vfprintf.c:18-64 | width, sign, digits and filling, character by character |
| `Numbers.SignFirstExact` | userland/libc/stdio/vfprintf.c:39-52 | the sign of a negative number comes first if and only if no zeros are filled in on its left |
| `Numbers.ZerosBeforeMinus` | userland/libc/stdio/vfprintf.c:39-52 | -5 in four places with zeros is 00-5 |
| `Numbers.NumeralDigits` | userland/libc/stdio/vfprintf.c:31-38 | the printed digits stand for the number |
| `Numbers.PrintThenParse` | userland/libc/stdio/vfprintf.c:18-64 | parsing what was printed gives the number back, if and only if no zeros were filled in behind a number other than 0 |
| `Numbers.Saturates` | userland/libc/stdlib/strtoll.c:52-60 | every digit string above LLONG_MAX gives LLONG_MAX and ERANGE |

## Left out

- Device drivers, window server, userland programs, HMAC, hash map, path cleaning: not modelled.
- Raw reads and writes of the disk are taken to be faithful; the byte address of a block is not cut to 32 bits, so disks above 4 GB are not covered.
- The superblock is written past the cache, so block 0 is outside the logical disk; its free counters are a field of the model.
- Ext2Fs.Ext2.WriteInode: needs a file whose sector count is what its size asks for, free blocks for the growth and a size the block map reaches, because the code ignores what `get_free_blocks` returns and stops at an assertion; bytes between the old end and the offset are not promised, since new blocks keep what was on them.
- Ext2Fs.Ext2.ClearBlockBitmap: needs a block that is no metadata, as the blocks of a file are.
- Ext2Fs.Ext2.GetBlock: needs indirect pointers that lead to blocks of the logical disk; one of 0 leads the code to block 0, which is outside it.
- Ext2Fs.Ext2.ReadInode: has the same need; a hole is a block pointer of 0 in an indirect block that exists.
- Ext2Layout.LayoutOk: is the layout as the code reads the bitmaps, so a disk with 1 KiB blocks meets it only without the block that `Ext2Example.RootHandedOut` names.
- The walk of `remove_inode` over a file's blocks, truncation, inode allocation, symbolic links and path resolution are not modelled; `remove_inode` appears as the list of its calls.
- Ext2Directory.EnterName: needs what the next line says.
- Ext2Directory.CreateEntry: needs, where it appends a block, a block size that fits the 16-bit size of a record; the code would clear a buffer of the wrong length.
- Ext2Directory.Unlink: takes the parent directory and the last name of the path, and needs a directory with records.
- Heap.KernelHeap.AddHeapMemory: needs a request whose rounding does not overflow 32 bits.
- Heap.KernelHeap.FindFreeEntry: the same.
- Heap.KernelHeap.Kmalloc: the same.
- Heap.KernelHeap.Krealloc: the same, of the new size.
- Heap.KernelHeap.IntKmalloc: needs a request whose rounding does not overflow 32 bits; `ksbrk` is any supplier of increasing addresses; the cut entry's header is written before `merge_headers` runs on the new one, which does not look at it.
- Magic numbers of heap headers and the total size counter are not modelled; a header is there when its address is in the map.
- TcpConnections.TcpConnection.HandleTcp: is about the connection the segment was matched to; sequence numbers do not wrap, checksums and the tables of connections and ports are not modelled.
- Udp.UdpConnection.HandleUdp: the family and padding of the stored address are whatever the stack held.
- Mmu.Memory.CloneTable: needs every present page in a frame that is marked as used (`Backed`), which mapped device memory beyond the bitmap is not.
- Mmu.Memory.CloneDirectory: needs the same of every table it copies, a free table slot and a parent whose tables match the kernel's where it dereferences them; the directory's own pages are any free frames, not contiguous ones, and no kernel table is created on the way.
- Multi-frame requests, `ksbrk` and the count of allocated frames are not modelled.
- Descriptors.Vfs.CreateFd: needs memory for the file and its slot, whose lack the code does not handle.
- Descriptors.Vfs.Dup2: needs the old descriptor open and the new slot inside the table, both asserted by the code.
- The entry count of a slot table and a failed second allocation while it grows are not modelled.
- Scheduler.NextTask: the queue may change from one pass to the next but not within one; waiting for an interrupt is the change between passes. The choice made for a dead current task is not modelled.
- Numbers.Strtoll: a minus sign stops the program and is excluded.
- Numbers.DigitsOf: bases from 8 on; below, the code stops after 32 digits.
- Numbers.FprintNum: bases from 8 on, and the most negative number is excluded.
- Sha1.Context.Final: messages below 2^64 bits, as the standard asks.
