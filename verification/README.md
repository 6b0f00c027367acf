# RDS and SRP transport: a verified model

This project models the parts of an out-of-tree Linux InfiniBand stack that are hardest to get right,
and proves properties of them for all inputs, all runs and all interleavings:

- the RDS (Reliable Datagram Sockets) core: the transmit queues, reliable delivery across connection
  resets, the hand-off of the single feeder role, fragmentation, the work ring, selective signalling,
  credit flow control, TCP reassembly, the memory region pool, congestion bitmaps, the copy between user
  memory and scatterlists, and the table of bound sockets;
- the recovery state machine of an SRP (SCSI RDMA Protocol) remote port.

Code that updates state in place is a class or a method proved against a function on values. Concurrent
code is a state machine whose steps are the atomic operations of the source. A `Run` is any finite
sequence of enabled steps from an initial state, so a lemma about `tr[i]` holds at every moment of every
schedule. `dafny verify dfyconfig.toml` checks everything.

| file | what it models |
|---|---|
| `XmitHandoff.dfy` | the RDS_IN_XMIT bit and the back-off of enqueuers |
| `SendQueue.dfy`, `Delivery.dfy` | send and retransmit queues; exactly-once, in-order delivery across resets |
| `Fragments.dfy` | fragmentation over several transport calls, reassembly by countdown |
| `WorkRing.dfy`, `SendEngine.dfy` | the 32-bit work ring; signalling and batched completion |
| `CreditWord.dfy`, `Credits.dfy` | the packed credit word; two-party flow control |
| `TcpRecv.dfy` | message reassembly from a TCP byte stream |
| `FmrPool.dfy` | the pool of fast memory regions |
| `Congestion.dfy`, `CongMonitor.dfy` | bitmap updates; lost wake-ups of the congestion monitor |
| `PageStore.dfy`, `ScatterGather.dfy` | page remainders; copy-in and copy-out |
| `BindTable.dfy` | bound sockets and the port search |
| `SrpRport.dfy` | SRP remote port recovery |
| `ByteBlocks.dfy`, `Common.dfy` | shared facts about bytes, and small definitions |

## Results about the code that are not what one would hope

Each comes with a concrete input or a family of them, and with the condition under which the code is right.

- `rds_ib_ring_unalloc` undoes the tail of an allocation if and only if the pointer does not have to borrow
  or the ring size divides 2^32 (`UnallocRefinesFifo`, `UnallocCanBreak`); the same kind of condition is
  proved for allocation and freeing. `rds_ib_ring_resize` keeps the ring consistent if and only if the
  allocation pointer is below the new size (`WorkRing.Ring.Resize`).
- Credit flow control cannot get stuck at rest unless both sides have exactly one buffer and one credit
  (`StuckExactly`); one-slot rings are stuck from the start (`OneSlotRingsStuck`).
- A flush of the region pool that nobody waits for, such as the worker's, puts all the regions it kept on the
  clean list except the first one, which is lost: still counted, on no list. It happens if and only if a
  region that is not worn out waits to be flushed (`FlushLeaksExactly`, `LeakReachable`). The item count is the
  number of regions in use and on the lists if and only if no flush has lost one (`ItemCountExact`), and
  destroying an idle pool brings it to the number lost (`FlushAllEmpties`).
- The pool's dirty count equals the length of its two dirty lists if and only if no flush of everything ever
  took a clean region (`DirtyCountExact`).
- The congestion monitor loses a wake-up exactly through a store that frees a port silently: the update read
  the word while the port was not marked, another update marked it since, and no update under way has the
  port's bit in its mask. Runs without such a store lose nothing (`WaitingIsCovered`, `NoLostWakeup`), every run
  that reaches one extends to a run that does (`SilentStoreLoses`), and step by step nothing else uncovers a
  port (`CoveredExactly`). Updates that agree on every word they are in together never free silently
  (`AgreeingNeverSilent`), so those that never overlap do not either (`ExclusiveNeverSilent`); two that overlap and
  disagree can (`OverlapLosesWakeup`). Two connections to one peer address share a map and may overlap.
- Messages can be stranded: on the queue of a connection that is up, with nobody coming and no back-pressure
  reported. In every run this is so if and only if the last attempt failed and let go of the bit with messages on
  the queue (`StrandedExactly`), for instance because a message could not be mapped (`QuietFailureStrands`,
  `MappingFailureStrands`).
- A mapping failure on iWARP reaches BUG_ON(adv_credits) exactly when the grab before it found a send credit and
  posted credits to advertise (`BugOnExact`, `BugOnReachable`).
- A wildcard port search stops by itself for every starting point except 1 (`StopsExactly`). The clamp to 2
  in the source is therefore needed.
- The reconnect back-off of an SRP port multiplies a 32-bit delay by up to 100. It stays positive for every
  failure count if and only if the delay is at most 21474836 s (`BackoffExact`). With delays up to that a failed
  port keeps trying (`KeepsTrying`); for every larger one, a run in which each attempt is made when it is due ends
  with a port failed fast that no longer tries (`LargeDelayStrands`).
- The backed-off delay is turned into clock ticks by another 32-bit product. At 1000 ticks per second the next
  attempt is queued for the intended moment if and only if the backed-off delay is at most 2147483 s
  (`RequeueDueExact`), which holds for every failure count if and only if the delay is at most 21474 s
  (`PunctualExactly`, `RetriesOnTime`); a write of the delay has the same bound (`StoreDueExact`).
- The send ring survives giving back entries it allocated and did not fill if and only if its pointer can be moved
  back without borrowing or its size divides 2^32 (`SendEngine.SendRing.PostBatch`).
- The sysfs stores of an SRP port take no lock. Writes that overlap can switch off all three timeouts
  (`OverlappingWritesBreak`) or strand a port (`OvertakenWriteStrands`). `OverlapExact` and `LateWriteExact` give the
  exact conditions; the run lemmas take a write as one step.

## Model

| member | source | states |
|---|---|---|
| XmitHandoff.OneFeeder | net/rds/send.c:102-119 | in every run at most one thread is inside the critical section of the transmit routine |
| XmitHandoff.NoStrandedMessage | net/rds/send.c:363-390 | in every run, with the connection up, no thread on its way to the queue, the worker not queued, no back-pressure and no failed last attempt, the send queue is empty |
| XmitHandoff.StrandedExactly | net/rds/send.c:380-390 | in every run, with the connection up, nobody active or queued and no back-pressure, messages are on the queue iff the last attempt failed and released the bit with messages there, and they are as many |
| XmitHandoff.LeftBehindStep | net/rds/send.c:363-390 | past a failed attempt the queue only grows, and every step that makes it grow brings someone who will look |
| XmitHandoff.QuietFailureStrands | net/rds/send.c:380-390 | how such runs come about: a thread feeding the connection alone, whose attempt fails without back-pressure and is not retried, leaves the queue as it was |
| XmitHandoff.MappingFailureStrands | net/rds/ib_send.c:598-603 | a run in which a message queued behind one that cannot be mapped is left with nobody coming for it |
| XmitHandoff.UniqueOwnerStep | net/rds/send.c:102-106 | every step of every thread keeps the bit equivalent to one owner being inside |
| XmitHandoff.DownCoveredStep | net/rds/send.c:153-167 | an owner that saw the connection down leaves work behind only if the worker is still to come after it went up |
| XmitHandoff.FailureRememberedStep | net/rds/send.c:363-390 | a failed attempt stays recorded until its owner has released the bit |
| XmitHandoff.NotStrandedStep | net/rds/send.c:1032-1068 | a thread that backs off leaves its message to an owner that will look at the queue again |
| XmitHandoff.InvRun | net/rds/threads.c:160-180 | all of these hold at every moment of every run, worker and connection changes included |
| SendQueue.WithoutExact | net/rds/send.c:229-239 | unlinking removes exactly the messages of one number and keeps the order |
| SendQueue.TrimExact | net/rds/send.c:645-670 | what an acknowledgement leaves on a sorted list is exactly what lies above it |
| SendQueue.TrimmedExact | net/rds/send.c:408-414 | what it takes is exactly what lies at or below it |
| SendQueue.Connection.constructor | net/rds/connection.c:150-154 | a new connection starts with number 1 and empty queues |
| SendQueue.Connection.QueueRm | net/rds/send.c:751-813 | a message is queued iff the send buffer is not full, then gets the next number at the tail and is charged |
| SendQueue.Connection.TakeNext | net/rds/send.c:205-221 | the queue's head moves to the tail of the retransmit list, if there is one |
| SendQueue.Connection.SettlePick | net/rds/send.c:229-239 | a retransmitted RDMA message is dropped iff it is still on the list |
| SendQueue.Connection.ResetSend | net/rds/send.c:64-100 | the loop that marks and splices leaves the whole list in order, marked as retransmissions, ahead of the queue |
| SendQueue.Connection.DropAckedMessages | net/rds/send.c:645-670 | the loop drops a prefix, which on a sorted list is exactly the acknowledged messages |
| SendQueue.CancelManyExact | net/rds/send.c:673-717 | cancelling a list of victims removes exactly them from both lists and keeps order, numbering and the message in hand |
| SendQueue.Connection.CancelAll | net/rds/send.c:673-717 | the walk removes exactly the victims from both lists |
| Delivery.AcceptedInOrder | net/rds/recv.c:198-203 | in every run with any number of resets, accepted numbers strictly increase, were queued, and were never silent |
| Delivery.NoLoss | net/rds/send.c:64-100 | in every run each number ever assigned is accepted, removed on purpose, silent, or still held by the sender |
| Delivery.AckTrimsAccepted | net/rds/ib_recv.c:921-925 | whichever acknowledgement arrives, however stale, the trim takes exactly the messages up to it and each was accepted or needed no delivery |
| Delivery.ReceiveSettles | net/rds/ib_recv.c:1014-1019 | after a packet is processed everything owed up to its number has been accepted |
| Delivery.SettledStep | net/rds/ib_send.c:611-615 | an acknowledgement that was sound stays sound through every later step |
| Delivery.NoGapStep | net/rds/ib_cm.c:718-737 | no step puts a packet on a connection ahead of a lower number still owed |
| Delivery.RetransSentStep | net/rds/send.c:205-239 | what is on the retransmit list has been sent on the current connection or accepted |
| Delivery.OwedLeaves | net/rds/send.c:645-670 | a number stops being owed only by being accepted, cancelled or dropped as a retransmitted RDMA operation |
| Delivery.NothingInventedStep | net/rds/recv.c:198-203 | nothing is accepted that was not queued |
| Delivery.EnqueueKeeps | net/rds/send.c:797-801 | queueing keeps both lists sorted, numbered below the next number and separated by the message in hand |
| Delivery.GrabKeeps | net/rds/send.c:205-221 | so does taking a message in hand |
| Delivery.SettleKeeps | net/rds/send.c:229-239 | so does settling whether it may be sent |
| Delivery.CancelKeeps | net/rds/send.c:673-717 | so does cancelling |
| Delivery.ResetKeeps | net/rds/send.c:64-100 | so does a reset |
| Delivery.DropKeeps | net/rds/send.c:645-670 | so does an acknowledgement |
| Delivery.InvRun | net/rds/connection.c:258-297 | the whole invariant holds at every moment of every run, each end being reset at its own time |
| Fragments.PiecesAreCut | net/rds/ib_send.c:658-743 | what one transport call cuts, from any cursor and with any grant, is a stretch of the reference cut of the payload |
| Fragments.BytesMoved | net/rds/ib_send.c:738-743 | the byte count a call returns is exactly how far its cursor moved |
| Fragments.CutJoins | net/rds/ib_send.c:547-548 | the fragments of a payload put end to end are the payload |
| Fragments.CursorUnique | net/rds/send.c:330-357 | two cursors at the same byte are the same, so caller and transport cannot disagree |
| Fragments.Xmit | net/rds/ib_send.c:658-743 | the posting loop sends exactly the granted pieces and returns their bytes, plus the header's on the first call |
| Fragments.Advance | net/rds/send.c:330-357 | the caller's loop turns the byte count into the cursor at that byte and knows when the message is done |
| Fragments.OneCall | net/rds/send.c:305-357 | one round of transport and caller keeps sent fragments a prefix of the cut |
| Fragments.SendMessage | net/rds/send.c:305-357 | over any grants the fragments sent are a prefix of the message's fragments, all of them exactly when it reports done, which it does if given enough calls |
| Fragments.SendFrom | net/rds/send.c:305-357 | the same for calls resumed anywhere in a message: what was sent before and what they send make up the prefix, or the whole when done |
| Fragments.PrefixReassembles | net/rds/ib_recv.c:884-936 | whatever prefix of a fragment stream arrives, it is accepted and the messages out of it are the first ones sent |
| Fragments.Receiver.ProcessRecv | net/rds/ib_recv.c:884-936 | one fragment joins the current message, completes it, or is refused on a header mismatch |
| Fragments.CountdownExact | net/rds/ib_recv.c:910-936 | the receiver's countdown runs out at exactly the sender's last fragment |
| Fragments.StreamReassembles | net/rds/ib_recv.c:884-936 | a stream of fragmented messages, empty ones included, comes out as exactly those messages in order |
| WorkRing.AllocRefinesFifo | net/rds/ib_ring.c:97-115 | allocation appends fresh slots, none outstanding, iff the 32-bit pointer sum is exact |
| WorkRing.FreeRefinesFifo | net/rds/ib_ring.c:117-125 | freeing takes the oldest slots off, under the same kind of condition |
| WorkRing.UnallocRefinesFifo | net/rds/ib_ring.c:127-131 | undoing takes the newest slots off iff the pointer does not borrow or the size divides 2^32 |
| WorkRing.UnallocConsistent | net/rds/ib_ring.c:127-131 | a ring that gives entries back stays consistent iff the same condition holds |
| WorkRing.UnallocUndoesAlloc | net/rds/ib_ring.c:127-131 | an allocation followed by its undoing is the identity iff the same condition holds |
| WorkRing.UnallocCanBreak | net/rds/ib_ring.c:127-131 | a five-slot ring on which undoing one allocation breaks the ring |
| WorkRing.CompletedCounts | net/rds/ib_ring.c:156-168 | the completed count of a slot is its position in the FIFO plus one, across wrap-around |
| WorkRing.Ring.constructor | net/rds/ib_ring.c:66-71 | a new ring is consistent and empty |
| WorkRing.Ring.Resize | net/rds/ib_ring.c:84-90 | resizing an idle ring keeps it consistent iff the allocation pointer is below the new size |
| WorkRing.Ring.AllocEntries | net/rds/ib_ring.c:97-115 | grants as many slots as asked or free, none iff none asked or ring full |
| WorkRing.Ring.FreeEntries | net/rds/ib_ring.c:117-125 | takes the oldest slots off and reports an empty ring |
| WorkRing.Ring.UnallocEntries | net/rds/ib_ring.c:127-131 | the ring stays consistent iff the pointer can be moved back, and then the newest slots are off |
| WorkRing.Ring.IsLow | net/rds/ib_ring.c:138-145 | low iff at most half the slots are outstanding |
| WorkRing.Ring.Oldest | net/rds/ib_ring.c:147-150 | the oldest outstanding slot |
| SendEngine.PacedBatch | net/rds/ib_send.c:495-510 | after any batch every max+1 requests in a row still include a signalled one |
| SendEngine.RetiredInPostingOrder | net/rds/ib_send.c:293-336 | in every run entries are retired exactly once, in posting order |
| SendEngine.SignaledSendsExact | net/rds/ib_send.c:260-266 | in every run the counter of signalled sends is the number of signalled entries outstanding, never negative |
| SendEngine.FullRingDrains | net/rds/ib_send.c:495-510 | a full ring larger than the signalling distance has a signalled entry with the adapter or its completion waiting |
| SendEngine.PollFinds | net/rds/ib_send.c:307-336 | a polled completion always names an outstanding entry, so the ring never underflows |
| SendEngine.SendRing.constructor | net/rds/ib_send.c:222-243 | a new send ring is empty with zero counters |
| SendEngine.SendRing.FillEntries | net/rds/ib_send.c:664-731 | the loop fills consecutive slots, across the ring's end, with the batch the countdown prescribes |
| SendEngine.GiveBackAppends | net/rds/ib_send.c:738-743 | allocating too much, filling what is needed and giving the rest back adds exactly what was filled, if the pointer can be moved back |
| SendEngine.SendRing.PostBatch | net/rds/ib_send.c:565-774 | allocating, posting and giving back keeps the ring valid iff the pointer can be moved back, and then adds exactly the batch and counts its signalled entries |
| SendEngine.SendRing.CountSignals | net/rds/ib_send.c:311-332 | the walk over completed entries, across the ring's end, counts exactly the signalled ones |
| SendEngine.SendRing.HandleCompletion | net/rds/ib_send.c:293-336 | the completion loop retires every entry up to the completed one and takes their signals off the counter |
| CreditWord.GrabRefines | net/rds/iw_send.c:348-399 | on the packed word a grab is a grab on two separate counters |
| CreditWord.AddSendExact | net/rds/iw_send.c:401-420 | adding send credits changes only that counter iff the sum fits its half |
| CreditWord.AddPostExact | net/rds/iw_send.c:422-445 | adding posted credits changes only that counter iff the sum stays below 32768 |
| CreditWord.PackReads | net/rds/iw.h:167-171 | both halves read back what was packed |
| CreditWord.CreditCell.constructor | net/rds/iw_cm.c:673-674 | a new cell holds no credits |
| CreditWord.CreditCell.Grab | net/rds/iw_send.c:348-399 | the compare-and-exchange loop takes effect at one moment, whatever other writers do in between |
| CreditWord.CreditCell.AddSendCredits | net/rds/iw_send.c:401-420 | adds received credits, nothing for zero |
| CreditWord.CreditCell.Advertise | net/rds/iw_send.c:422-445 | adds posted buffers and asks for an acknowledgement from 16 on |
| Credits.CreditsConserved | net/rds/iw_send.c:540-620 | in every run of both sides the claims on a side's buffers never exceed, and without failures equal, the buffers it has posted |
| Credits.NoReceiverNotReady | net/rds/iw_recv.c:224-269 | every message in flight has a buffer posted for it |
| Credits.HalvesIndependent | net/rds/iw.h:167-171 | in every run neither half of a credit word overflows and no header carries more than 255 credits |
| Credits.StuckExactly | net/rds/iw_send.c:365-399 | at rest neither side can send iff both have one buffer and one credit |
| Credits.NoDeadlock | net/rds/iw_ring.c:138-141 | rings of two or more slots refilled at half never get stuck |
| Credits.OneSlotRingsStuck | net/rds/iw_send.c:365-399 | with one-slot rings neither side can send its first message |
| Credits.CreditsCirculate | net/rds/iw_send.c:365-399 | in every run without failures the send credits of both sides and the credits on their way never come to 0 |
| Credits.BugOnExact | net/rds/iw_send.c:571-576 | a mapping failure reaches BUG_ON(adv_credits) iff the grab before it found a send credit and posted credits |
| Credits.BugOnReachable | net/rds/iw_send.c:764 | from every connection with room for another buffer a run that gets there |
| Credits.HandshakeWord | net/rds/iw_cm.c:128-135 | the handshake moves the posted buffers of one side into the send credits of the other |
| Credits.InitConserved | net/rds/iw_cm.c:53-64 | a connection that has just come up has every buffer claimed once |
| Credits.ActionConserves | net/rds/iw_send.c:709-743 | every step of either side conserves credits |
| Credits.PurseStep | net/rds/iw_send.c:365-399 | the last send credit is never spent without advertising a buffer in return |
| Credits.GrabLeaves | net/rds/iw_send.c:365-399 | a grab that succeeds leaves a credit behind or advertises a buffer |
| TcpRecv.ParseInvertsEncode | net/rds/tcp_recv.c:174-271 | parsing what was encoded gives the messages back and ignores an unfinished one at the end |
| TcpRecv.StreamDecodes | net/rds/tcp_recv.c:174-271 | the encoding of any messages parses to exactly those messages |
| TcpRecv.HeldIncomplete | net/rds/tcp_recv.c:230-251 | while a countdown is running the bytes held are not a whole message |
| TcpRecv.TcpConnection.constructor | net/rds/tcp.c:208-210 | a new connection holds nothing |
| TcpRecv.TcpConnection.DeliveredIsParse | net/rds/tcp_recv.c:253-264 | what has been delivered is the parse of all bytes taken |
| TcpRecv.TcpConnection.CopyHeader | net/rds/tcp_recv.c:207-228 | header bytes are taken in order and the payload countdown starts from the header's length |
| TcpRecv.TcpConnection.QueueClone | net/rds/tcp_recv.c:230-251 | a trimmed clone holds exactly the payload bytes of the piece that belong to the message |
| TcpRecv.TcpConnection.HandUp | net/rds/tcp_recv.c:253-264 | a finished message is handed up and no byte is lost |
| TcpRecv.TcpConnection.DataRecv | net/rds/tcp_recv.c:174-271 | one call takes a prefix of the piece, all of it unless an allocation failed, and delivers the parse of everything taken |
| TcpRecv.Round | net/rds/tcp_recv.c:274-294 | bytes not taken are presented again, and progress is made when memory is available |
| TcpRecv.Session | net/rds/tcp_recv.c:274-330 | for every way of cutting the stream and every pattern of failed allocations, the messages delivered are the parse of the prefix consumed |
| FmrPool.ItemCountExact | net/rds/ib_rdma.c:658-677 | between operations of every run the item count is the regions in use and on the lists iff no flush for nobody kept a region |
| FmrPool.LeakedExact | net/rds/ib_rdma.c:671-677 | no region is lost iff each flush for nobody kept none |
| FmrPool.FlushLeaksExactly | net/rds/ib_rdma.c:658-672 | a flush for nobody loses one region iff a region that is not worn out is on a dirty list |
| FmrPool.KeepNone | net/rds/ib_rdma.c:643-656 | such a sweep keeps nothing iff everything gathered is worn out |
| FmrPool.LeakReachable | net/rds/ib_rdma.c:658-672 | a run that ends with empty lists, nothing in use and an item count of 1 |
| FmrPool.LimitsHeld | net/rds/ib_rdma.c:293-365 | in every run the regions that exist, lost ones included, stay within the limit, none is mapped too often, and every clean one is unmapped |
| FmrPool.CountersExact | net/rds/ib_rdma.c:694-714 | in every run, between operations, item count, pinned pages and dirty count are the exact sums over the lists, plus regions lost and less clean regions flushed |
| FmrPool.DirtyCountExact | net/rds/ib_rdma.c:614-621 | the dirty count is the length of the dirty lists iff no flush of everything took a clean region |
| FmrPool.CleanTakenExact | net/rds/ib_rdma.c:618-619 | the correction is zero iff each such flush found the clean list empty |
| FmrPool.FlushAllEmpties | net/rds/ib_rdma.c:254-261 | with nothing in use a flush of everything unpins every page and brings the item count to the number of regions lost before |
| FmrPool.FlushHelps | net/rds/ib_rdma.c:322-331 | a flush for an allocation yields a region or makes room if any region is neither in use nor lost |
| FmrPool.ItemsStep | net/rds/ib_rdma.c:315-321 | every step keeps the item count equal to live, freed-but-uncounted and reserved regions, and live ones within the limit |
| FmrPool.PagesStep | net/rds/ib_rdma.c:499-510 | every step keeps the pinned page count equal to the pages on the dirty lists and in the flush, less releases not yet counted |
| FmrPool.DirtyStep | net/rds/ib_rdma.c:675-677 | every step keeps the dirty count's law |
| FmrPool.WornStep | net/rds/ib_rdma.c:646-656 | every step keeps map counts within the limit and clean regions unmapped |
| FmrPool.InvRun | net/rds/ib_rdma.c:570-685 | all laws hold at every moment of every run, with allocations, releases and a flush interleaved |
| FmrPool.Keep | net/rds/ib_rdma.c:643-656 | what a sweep keeps is unmapped and may be mapped again |
| FmrPool.Pool.constructor | net/rds/ib_rdma.c:215-244 | a new pool is empty |
| FmrPool.Pool.SweepList | net/rds/ib_rdma.c:643-656 | the loop keeps, destroys and unpins exactly what the specification says |
| FmrPool.Pool.GatherLists | net/rds/ib_rdma.c:613-619 | the lists are taken over with worn-out regions first |
| FmrPool.Pool.PutBack | net/rds/ib_rdma.c:665-671 | the first region kept goes to a waiting caller or nowhere, the others to the clean list |
| FmrPool.Pool.FlushLists | net/rds/ib_rdma.c:613-677 | a flush from gathering to settling the counters |
| FmrPool.Pool.FlushPool | net/rds/ib_rdma.c:570-685 | a flush keeps the pool's laws and gives a waiting caller the first region kept |
| FmrPool.Pool.AllocFmr | net/rds/ib_rdma.c:293-365 | allocation reports a depleted pool iff every permitted region is in use or lost, and otherwise yields a region that may be mapped |
| FmrPool.Pool.MapFmr | net/rds/ib_rdma.c:433-440 | mapping pins the pages and counts the mapping |
| FmrPool.Pool.Release | net/rds/ib_rdma.c:703-709 | a region goes to the list its map count calls for, and is counted |
| FmrPool.Pool.FreeMr | net/rds/ib_rdma.c:694-726 | handing back keeps the laws; an invalidating release leaves the dirty lists and the pinned count empty |
| FmrPool.Pool.CreateFmr | net/rds/ib_rdma.c:334-354 | a new region is unmapped and keeps the laws |
| FmrPool.Pool.ReuseFmr | net/rds/ib_rdma.c:263-279 | a clean region is taken off the list and may be mapped |
| FmrPool.Pool.Destroy | net/rds/ib_rdma.c:254-261 | destroying an idle pool ends with no page pinned and an item count equal to the regions lost |
| Congestion.CongRecv | net/rds/ib_recv.c:733-798 | a bitmap of the right length replaces the map and the mask collects exactly the freed ports; any other is dropped, for every page size |
| Congestion.CopyWords | net/rds/ib_recv.c:770-775 | the inner loop copies a stretch of words and records what it frees |
| Congestion.FreedExact | net/rds/ib_recv.c:773-774 | a mask bit is set iff in some word that bit went from congested to free |
| Congestion.FreedPorts | include/linux/rds.h:187-189 | a mask bit is set iff a port with that number modulo 64 went from congested to free |
| Congestion.PageAddressing | net/rds/cong.c:277-314 | addressing a port by page and offset reaches its word and bit in the flat map |
| CongMonitor.WaitingIsCovered | net/rds/cong.c:346-367 | in every run without a silent store, a port given up on is still congested or an update under way will notify it |
| CongMonitor.NoLostWakeup | net/rds/cong.c:231-257 | in such a run, with no update under way, a port that became free has been notified since its mask bit was set |
| CongMonitor.CoveredExactly | net/rds/ib_recv.c:770-775 | a step uncovers a waiting port iff it is a store that frees it silently |
| CongMonitor.SilentStoreLoses | net/rds/cong.c:352-366 | every run that reaches a silent store pending extends to one with a waiting, uncongested port nobody will notify |
| CongMonitor.AgreeingNeverSilent | net/rds/ib_recv.c:770-775 | a run in which any updates in one word together bring the same bits for it has no silent store |
| CongMonitor.ExclusiveNeverSilent | net/rds/ib_recv.c:770-775 | a run in which no two updates are in one word together has none either |
| CongMonitor.AccountedStep | net/rds/ib_recv.c:770-775 | in such a run an update about to store a word has recorded every port the store frees |
| CongMonitor.AccountedRun | net/rds/ib_recv.c:770-775 | and so at every moment |
| CongMonitor.OverlapLosesWakeup | net/rds/ib_recv.c:770-775 | a run in which two updates overlap in one word and a waiting port becomes free with nobody to notify it |
| CongMonitor.LeavesByNotification | net/rds/cong.c:246-251 | a port stops waiting only by having its notify bit raised |
| CongMonitor.RegistrationsStep | net/rds/cong.c:246-251 | whoever counts on a notification has its bit in the socket's mask |
| PageStore.Store.constructor | net/rds/page.c:40-47 | an empty store |
| PageStore.Store.RemainderAlloc | net/rds/page.c:96-168 | a region handed out has the size asked for or a page, lies within one page and overlaps no other, failing only if a page is refused |
| PageStore.Store.Write | net/rds/page.c:56-76 | writing a region leaves the contents of all other regions alone |
| ScatterGather.CopyFromUser | net/rds/message.c:267-326 | for all buffer layouts the scatterlist holds exactly the bytes, in ceil(total / page) regions, all but the last full, and other messages are untouched even on failure |
| ScatterGather.SkipFull | net/rds/message.c:295-298 | used-up and empty buffers are stepped over without losing the position |
| ScatterGather.NextRegion | net/rds/message.c:286-293 | a region added does not disturb what is there |
| ScatterGather.OpenRegion | net/rds/message.c:286-293 | the walk goes on with a region added, or ends only if a page was refused |
| ScatterGather.CopyPiece | net/rds/message.c:300-322 | one round of the loop copies a piece and keeps the walk in step |
| ScatterGather.CopyToUser | net/rds/message.c:328-384 | the reader gets the first min(size, len) bytes and everything behind them stays as it was |
| ScatterGather.PieceServed | net/rds/message.c:349-380 | copying m bytes moves both walks on and keeps what was delivered a prefix |
| ScatterGather.ServePiece | net/rds/message.c:349-380 | one round of the loop serves a piece and keeps both walks in step |
| ScatterGather.RoundTrip | net/rds/message.c:267-384 | for all layouts on both sides, copy-in followed by copy-out yields the first min(size, total) bytes |
| BindTable.Table.constructor | net/rds/bind.c:41-43 | an empty table |
| BindTable.Table.Lookup | net/rds/bind.c:51-71 | the chain walk finds what a simple map holds |
| BindTable.Table.Insert | net/rds/bind.c:73-84 | a socket is bound iff the name is free, and then is the only one there |
| BindTable.Table.AddBound | net/rds/bind.c:111-142 | a port asked for is bound iff free; a wildcard search fails iff all 65535 ports are taken and otherwise takes the first free one of its round |
| BindTable.Table.RemoveBound | net/rds/bind.c:144-161 | the socket's name becomes free and no other does |
| BindTable.Table.Unhook | net/rds/bind.c:155 | unlinking one link keeps every other name findable |
| BindTable.StopsExactly | net/rds/bind.c:121-137 | a search reaches its last port iff it does not start at 1 |
| BindTable.TriedOnce | net/rds/bind.c:127-137 | within one round no port is tried twice |
| BindTable.Turn | net/rds/bind.c:127-137 | every port from 1 to 65535 has its turn in a round |
| BindTable.RoverIsTried | net/rds/bind.c:127-137 | the 16-bit rover with port 0 skipped visits the ports in that order |
| BindTable.FindUnlinked | net/rds/bind.c:155 | unlinking removes one name from a chain and changes no other lookup |
| SrpRport.TimeoutsStayValid | drivers/scsi/scsi_transport_srp.c:101-118 | in every run the three timeouts form an accepted triple |
| SrpRport.RunningUnarmed | drivers/scsi/scsi_transport_srp.c:720-726 | in every run a running port has no failure timer queued |
| SrpRport.BlockedIsBounded | drivers/scsi/scsi_transport_srp.c:632-664 | in every run a blocked port has a failure timer queued or entered for at most 600 s after blocking, and past that time a handler has started |
| SrpRport.DevicesFollowPort | drivers/scsi/scsi_transport_srp.c:703-755 | in every run, whenever the mutex is free, devices are blocked iff the port is |
| SrpRport.LostIsFinal | drivers/scsi/scsi_transport_srp.c:454-494 | in every run a lost port stays lost |
| SrpRport.BackoffExact | drivers/scsi/scsi_transport_srp.c:518-523 | the backed-off delay is positive for all failure counts iff the delay is at most 21474836 |
| SrpRport.OverflowStops | drivers/scsi/scsi_transport_srp.c:518-523 | for a larger delay it goes negative after a definite number of failures and not before |
| SrpRport.KeepsTrying | drivers/scsi/scsi_transport_srp.c:505-524 | in every run with delays up to that bound, a failed port with a positive delay has reconnect work queued or running |
| SrpRport.LargeDelayStrands | drivers/scsi/scsi_transport_srp.c:505-524 | for every larger delay, a run with each attempt made when due that ends in a port failed fast with no reconnect work |
| SrpRport.FailingRun | drivers/scsi/scsi_transport_srp.c:505-524 | for every delay and count, as long as each failure queues the next attempt, a run of that many failed attempts at their deadlines |
| SrpRport.RequeueTries | drivers/scsi/scsi_transport_srp.c:518-523 | a failed attempt within the safe delay queues the next one |
| SrpRport.TicksExact | drivers/scsi/scsi_transport_srp.c:520-523 | a positive time becomes the right number of ticks iff it is at most 2147483 s |
| SrpRport.RequeueDueExact | drivers/scsi/scsi_transport_srp.c:518-523 | the next attempt is queued for the intended moment iff the backed-off delay is within that |
| SrpRport.PunctualExactly | drivers/scsi/scsi_transport_srp.c:518-523 | so for every failure count iff the delay is at most 21474 s |
| SrpRport.RetriesOnTime | drivers/scsi/scsi_transport_srp.c:505-524 | in every run with such a delay each failure queues the next attempt for the intended moment |
| SrpRport.StoreDueExact | drivers/scsi/scsi_transport_srp.c:312-315 | a write that starts reconnecting queues it for the intended moment iff the delay is at most 2147483 s |
| SrpRport.StartBounds | drivers/scsi/scsi_transport_srp.c:632-664 | starting the timers arms one within the limit whenever it blocks the port |
| SrpRport.InvStep | drivers/scsi/scsi_transport_srp.c:588-630 | every step keeps timeouts, timers and device blocking in agreement |
| SrpRport.OverlappingWritesBreak | drivers/scsi/scsi_transport_srp.c:371-442 | two writes that both check before either takes effect can yield a rejected triple |
| SrpRport.OvertakenWriteStrands | drivers/scsi/scsi_transport_srp.c:296-324 | a write that enables reconnecting, overtaken by a transport error, strands the port; one that is not does not |
| SrpRport.OverlapExact | drivers/scsi/scsi_transport_srp.c:371-442 | for each pair of attributes, when two overlapping accepted writes leave a valid triple |
| SrpRport.LateWriteExact | drivers/scsi/scsi_transport_srp.c:312-319 | when a write that takes effect late leaves a failed port trying |
| SrpRport.Rport.constructor | drivers/scsi/scsi_transport_srp.c:857-898 | a new port is running with no work queued |
| SrpRport.Rport.SetState | drivers/scsi/scsi_transport_srp.c:454-494 | succeeds exactly on the permitted transitions and never leaves the lost state |
| SrpRport.Rport.QueueReconnect | drivers/scsi/scsi_transport_srp.c:312-315 | queues the reconnect work for a deadline unless it is queued already |
| SrpRport.Rport.FailIoFast | drivers/scsi/scsi_transport_srp.c:560-577 | fails a port that is not lost and unblocks its devices |
| SrpRport.Rport.StartFailTimers | drivers/scsi/scsi_transport_srp.c:673-679 | the invariant survives starting the timers |
| SrpRport.Rport.StartFailTimersLocked | drivers/scsi/scsi_transport_srp.c:632-664 | queues reconnecting for its deadline and, from the running state only, blocks and arms |
| SrpRport.Rport.ReconnectPort | drivers/scsi/scsi_transport_srp.c:703-755 | success cancels both timers and runs the port, failure fails a running port and restores blocking otherwise |
| SrpRport.Rport.Backoff | drivers/scsi/scsi_transport_srp.c:514-523 | counts the failure and queues the next attempt for the backed-off deadline, both products in 32 bits |
| SrpRport.Rport.ReconnectWork | drivers/scsi/scsi_transport_srp.c:505-524 | the handler keeps the invariant and, within the safe delay, leaves a failed port trying |
| SrpRport.Rport.FastIoFailTimedOut | drivers/scsi/scsi_transport_srp.c:588-602 | after the handler the port is not blocked |
| SrpRport.Rport.DevLossTimedOut | drivers/scsi/scsi_transport_srp.c:613-630 | after the handler the port is lost and its devices unblocked |
| SrpRport.Rport.StoreReconnectDelay | drivers/scsi/scsi_transport_srp.c:296-324 | a delay is accepted iff the triple stays valid, and never leaves a failed port without work |
| SrpRport.Rport.StopTimers | drivers/scsi/scsi_transport_srp.c:994-1000 | teardown ends in a lost port with devices unblocked |

## Assumptions

- Each end of a connection survives the whole run: a peer that restarts with fresh sequence numbers is not
  modelled. Sequence numbers do not reach 2^64. Clearing the connection's flags in a reset does not race with a
  transmitter, as the comment above `rds_conn_reset` demands of the transport.
- Memory is sequentially consistent at the steps modelled; the barriers in the source provide this.
- A connection instance delivers a prefix of what was sent on it, in order.
- Scatterlist entries but the last hold whole fragments, and DMA mapping is one to one.
- Receive rings for flow control have fewer than 32768 slots; the send ring class takes up to 2^31.
- Bitmap fragments start at offset 0 of their page. 64-bit words are taken in little-endian order.
- A fast memory region may be mapped at least once; a region is mapped only right after its allocation.
- SRP: initial timeouts form a valid triple; the kernel ticks at 1000 Hz on a 64-bit machine; due work is
  taken up before the clock moves on unless its own handler is still busy; a negative number of ticks, read as
  an unsigned delay, is a deadline in the past; fewer than 2^31 consecutive failures.

Where code and documentation disagree the model follows the code. The header comment of
`rds_ib_flush_mr_pool` says a flush also frees regions down to the limit; the code frees only worn-out
regions unless everything is flushed. The comment in the bitmap receive loop says ports become uncongested
when bits change from 0 to 1; the code, like the model, records bits that change from 1 to 0.

## Left out

- RDMA and atomic operations beyond their place in the queues, notification lists and completion codes.
- The atomic-operation path in the accounting of signalled sends, and posts that fail there.
- Retransmission over TCP, which rests on the socket's own sequence state, and the TCP send side.
- The acknowledgement number carried in the connection handshake.
- Pacing of acknowledgement requests (ACK_REQUIRED every so many bytes), a matter of performance.
- Send-buffer accounting beyond admission of a message.
- Loopback connections, whose congestion maps are crossed, and turning the congestion monitor off.
- The connection state machine beyond up and down: reconnect back-off and racing connects.
- Extension headers, RDS info, statistics, sysctls, module parameters and debugging output.
- Verbs, the connection manager, workqueues, socket buffers and page reference counts as such: they appear only through their outcomes.
- The page list built for a memory region (page alignment checks and page count).
- Concurrent fillers of one CPU's page remainder: the retry after losing that race.
- Reuse of freed pages: a page handed out is never handed out again in the model.
- The SRP initiator and target drivers and the SCSI layer.
- SrpRport.Rport.FailIoFast: does not model waiting for queued commands and terminating I/O in the driver, which change no modelled state.
- CongMonitor.NoLostWakeup: one socket and one map; sockets are independent of each other, so more of them add nothing.
- SendEngine.SendRing.PostBatch: one give-back, after filling; the earlier one, when fewer credits than entries are granted, is the same operation under the same condition.
- XmitHandoff.NoStrandedMessage: covers messages only; `StrandedExactly` has the exact condition on the last attempt; a queued congestion map is not looked at again by the re-check in the source either.
