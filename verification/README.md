# Firmware and kernel code of the RISC-V and Amber projects

This project models and proves the software that the CPU projects of the repository run: the list benchmark
of CoreMark, the list, co-routine, stream-buffer and event-group code of the FreeRTOS kernel, the word-wise
memcpy, the XMODEM and TFTP receivers of the Amber boot loaders with the checksums they rely on, and the
software multiplication and division of dark-risc-v.

Code that relinks nodes, walks arrays or updates fields is written as methods on heap objects with loops, and
each method is proved against a specification function or an explicit property. Where interrupts, a second
task or a network interleave with the code, the atomic steps are functions on a state, an invariant is proved
for each step, and the results are stated for every run.

- `CoreList.dfy`, `CoreListBench.dfy`: the in-place, bottom-up merge sort whose comparator may cache values in
  the elements, and the benchmark round that must leave the list as it found it.
- `KernelList.dfy`: the circular doubly linked list through a sentinel, kept in order by `vListInsert`.
- `CoRoutineKernel.dfy`, `CoRoutineRuns.dfy`, `CoRoutines.dfy`, and on the results of these `CoRoutineEvents.dfy`
  and `CoRoutineTurns.dfy`, on waiting for events and on whose turn it is: the co-routine scheduler. The first
  gives the atomic steps its critical sections leave and the invariant they keep, the second the results over
  runs, the third the code as written, each of whose calls makes such a run, with interrupts between the atomic steps;
  within a step they commute with the list operations (`WakeCommutesTake`, `WakeCommutesPut`). The lists are
  the sequences and index positions that `KernelList` proves its rings to hold.
- `StreamBuffers.dfy`: the byte ring with one writer and one reader that take no lock while they copy, and the
  message mode on top of it.
- `EventGroups.dfy`: waiting for bits, the rendezvous, and the absence of lost wake-ups.
- `Memcpy.dfy`: memcpy by aligned words with shifts and unrolled loops, little endian.
- `Crc16.dfy`, `Xmodem.dfy`: the CRC against division of polynomials, and the receiver (XMODEM/YMODEM Protocol
  Reference, Forsberg, 1988) against a stop-and-wait sender.
- `Tftp.dfy`: the receiving end of a write (RFC 1350, sections 2 and 6) against a lock-step sender.
- `SoftMulDiv.dfy`: shift-and-add and shift-and-subtract on 32-bit words.
- `InternetChecksum.dfy`: the checksum (RFC 1071, section 1) and the IP headers and TCP segments that carry it
  (RFC 791, section 3.1; RFC 793, section 3.1).

Findings about the code:

- The TFTP receiver starts its file afresh on every write request. A repeated request that arrives after data
  has been taken therefore loses that data. A file of several blocks can then end with `ready` set and too
  short (`RequestHarmlessIff`); a file of one block may not be there although it has been acknowledged
  (`RequestKeepsFileIff` says exactly when the sender can rely on its acknowledgements).
- The XMODEM receiver acknowledges a repeated frame again, and an ACK carries no number. A sender that takes
  the second one for the next block's is done before the last block has come (`SecondAckLosesBlock`). So
  only a file of at most one block is always whole when the sender is done (`WholeIff`). 256 such ACKs ahead,
  a block is moreover taken for another with the same 8-bit number. Since the receiver bears no more than 24
  repeats between two blocks, files of up to 267 blocks are safe from that, and only they are (`OrderIff`):
  what they leave in memory is always the beginning of the file (`ReceivedSafely`).
- A TCP reply is summed with the address that the last packet came from, and sent to the one that `tcp_open`
  stored; nothing else writes it. The two differ when an open connection, which is found by its source port
  alone (tcp.c:211-214), gets a packet of another host, and when a socket that is listening, and has no stored
  address, answers a FIN (tcp.c:321-322). The reply is then rejected at the other end, unless the two addresses
  have the same sum (`TcpReply`, `ReplyAddress`, `OtherHostRejected`).
- A comment in `croutine.c` (lines 297-298) says that co-routines of the same priority get an equal share of the
  processor time. They do as long as they stay ready (`EqualShare`, `EachOnceARound`). One that blocks just
  after its turn takes pxIndex back to the one in front of it; if it is ready again before the next pick it is
  put in front of that one and picked before it (`PickedTwice`). `NewcomerWaits` says exactly when, and
  `AtMostTwice` that it is never picked three times in the turn of another.
- A comment in `list.c` says that an item inserted by `vListInsertEnd` is the last to be returned by
  `listGET_OWNER_OF_NEXT_ENTRY`. It is inserted before `pxIndex`, so the item `pxIndex` stands on comes after
  it; that item has just had its turn. `InsertEndAndCycle` follows the code.

Assumptions about the other side: the line to the XMODEM receiver may drop and repeat frames, but once a block
has come at most the one before it may still come again. Damage that a check does not detect, so that a frame
found good is not a copy of one sent, is outside the model; `BurstDetected` says which damage the CRC is sure
to detect.

## Model

| member | source | states |
|---|---|---|
| `CoreList.CalcFunc` | tiny-risc-v/tests/example/coremark/core_list_join.c:63-95 | the result is the low seven bits of the data word afterwards, whose bit 7 is set; a cached word is not touched, the backup byte never is |
| `CoreList.Compare` | tiny-risc-v/tests/example/coremark/core_list_join.c:101-118 | cmp_complex compares the values in the low seven bits of the two data words, both cached afterwards, cmp_idx the indices; both data are then settled: comparing them again changes nothing |
| `CoreList.MergeRuns` | tiny-risc-v/tests/example/coremark/core_list_join.c:439-482 | the inner loops of one merge, by relinking nodes in place: the two runs go to the end of the output list, sorted and with ties in list order |
| `CoreList.SortPass` | tiny-risc-v/tests/example/coremark/core_list_join.c:432-486 | one pass turns sorted runs of length insize into sorted runs of twice that, and counts one merge only when one run is left |
| `CoreList.MergeSort` | tiny-risc-v/tests/example/coremark/core_list_join.c:426-492 | for every non-empty list that a 32-bit insize can span and every total preorder: terminates with the same nodes, each with its own info; by cmp_complex the low bytes, all cached, ascend from node to node, by cmp_idx the indices do, and nodes that are equal stand in the order of the list given |
| `CoreList.StableOrderUnique` | tiny-risc-v/tests/example/coremark/core_list_join.c:426-492 | such an order is unique, so MergeSort determines its result |
| `CoreListBench.Find` | tiny-risc-v/tests/example/coremark/core_list_join.c:370-380 | the first node that matches by index, or by low data byte when the index is negative; null when none does |
| `CoreListBench.Reverse` | tiny-risc-v/tests/example/coremark/core_list_join.c:395-404 | the same nodes linked in reverse order |
| `CoreListBench.ReverseTwice` | tiny-risc-v/tests/example/coremark/core_list_join.c:395-404 | two reversals restore the list |
| `CoreListBench.Remove` | tiny-risc-v/tests/example/coremark/core_list_join.c:316-327 | the node behind item leaves the list and the two infos change places |
| `CoreListBench.UndoRemove` | tiny-risc-v/tests/example/coremark/core_list_join.c:345-355 | the node comes back where it was and the infos change places again |
| `CoreListBench.MoveForward` | tiny-risc-v/tests/example/coremark/core_list_join.c:157-163 | the node behind the one found moves to the second place, also when the one found is the head |
| `CoreListBench.FindRounds` | tiny-risc-v/tests/example/coremark/core_list_join.c:144-169 | any number of find, reverse and move rounds keeps the set of nodes |
| `CoreListBench.RemoveAndRestore` | tiny-risc-v/tests/example/coremark/core_list_join.c:174-186 | remove, search and undo leave the order and the node-to-info binding as they were |
| `CoreListBench.BenchList` | tiny-risc-v/tests/example/coremark/core_list_join.c:132-199 | the round ends with the same nodes and the same node-to-info binding, sorted by index, every data word regenerated from its backup; if the list was sorted by distinct indices it is restored exactly, behind the same head |
| `CoreListBench.EqualIndicesNotDetermined` | tiny-risc-v/tests/example/coremark/core_list_join.c:112-118 | with two equal indices the order by index alone does not determine the list: another order of the nodes is sorted as well |
| `CoreListBench.Iterate` | tiny-risc-v/tests/example/coremark/core_main.c:38-56 | any number of iterations, each starting from the same head, leaves the list and every data word unchanged |
| `KernelList.List.constructor` | tiny-risc-v/tests/example/FreeRTOS/Source/list.c:37-59 | an empty ring: the sentinel linked to itself, pxIndex on it |
| `KernelList.List.InsertEnd` | tiny-risc-v/tests/example/FreeRTOS/Source/list.c:74-100 | ring, count, containers and pxIndex stay consistent; the item goes just before pxIndex |
| `KernelList.List.Insert` | tiny-risc-v/tests/example/FreeRTOS/Source/list.c:103-167 | the same, and the item goes to the place of its value |
| `KernelList.List.FindPlace` | tiny-risc-v/tests/example/FreeRTOS/Source/list.c:122-155 | the search finds that place, with the value portMAX_DELAY too |
| `KernelList.PlaceIsRight` | tiny-risc-v/tests/example/FreeRTOS/Source/list.c:115-121 | that place is the only one that keeps the list ascending with the new value behind all equal ones |
| `KernelList.InsertKeepsAscending` | tiny-risc-v/tests/example/FreeRTOS/Source/list.c:103-167 | an ascending list stays ascending |
| `KernelList.Remove` | tiny-risc-v/tests/example/FreeRTOS/Source/list.c:170-196 | the item found through its container leaves that list; pxIndex moves back if it stood on the item; the count returned is what is left |
| `KernelList.InsertAndRemove` | tiny-risc-v/tests/example/FreeRTOS/Source/list.c:74-196 | an insertion of either kind followed by the removal of the item leaves items, count, pxIndex and every next and previous pointer of the list as they were |
| `KernelList.LinksDetermined` | tiny-risc-v/tests/example/FreeRTOS/Source/list.c:37-196 | items and pxIndex determine every next and previous pointer, both ways |
| `KernelList.List.Next` | tiny-risc-v/tests/example/FreeRTOS/Source/include/list.h:277-288 | pxIndex moves to the next item and skips the sentinel |
| `KernelList.Cycle` | tiny-risc-v/tests/example/FreeRTOS/Source/include/list.h:261-288 | as many calls as there are items return each item of the list exactly once |
| `KernelList.InsertEndAndCycle` | tiny-risc-v/tests/example/FreeRTOS/Source/list.c:82-97 | an item put in by vListInsertEnd is returned after every other item but the one pxIndex stands on, which comes last |
| `CoRoutineKernel.TakeLinked` | tiny-risc-v/tests/example/FreeRTOS/Source/list.c:170-196 | taking an item off its list keeps every item of every co-routine on exactly the list its container names |
| `CoRoutineKernel.PutLinked` | tiny-risc-v/tests/example/FreeRTOS/Source/list.c:74-167 | so does putting a free item on a list |
| `CoRoutineKernel.SortedInserted` | tiny-risc-v/tests/example/FreeRTOS/Source/croutine.c:175-186 | delay lists stay in order of wake time |
| `CoRoutineKernel.QueuedInserted` | tiny-risc-v/tests/example/FreeRTOS/Source/croutine.c:141-142 | event lists stay in order of priority and, among equals, of arrival, although list values are only priorities |
| `CoRoutineKernel.PendingTakeInv` | tiny-risc-v/tests/example/FreeRTOS/Source/croutine.c:204-212 | the critical section of prvCheckPendingReadyList keeps the kernel invariant |
| `CoRoutineKernel.PendingMoveInv` | tiny-risc-v/tests/example/FreeRTOS/Source/croutine.c:214-215 | so does the move to the ready list after it, with uxTopCoRoutineReadyPriority still above every ready priority |
| `CoRoutineKernel.Tick1Inv` | tiny-risc-v/tests/example/FreeRTOS/Source/croutine.c:225-242 | so does a tick, with the swap of the delay lists when the counter wraps |
| `CoRoutineKernel.ExpireTakeInv` | tiny-risc-v/tests/example/FreeRTOS/Source/croutine.c:247-268 | so does the critical section of prvCheckDelayedList, also when an interrupt has made the co-routine pending just before |
| `CoRoutineKernel.PickInv` | tiny-risc-v/tests/example/FreeRTOS/Source/croutine.c:287-299 | so does the choice of the next co-routine |
| `CoRoutineKernel.DelayInv` | tiny-risc-v/tests/example/FreeRTOS/Source/croutine.c:159-194 | so does a delay, with or without an event list, wherever the wake time wraps |
| `CoRoutineKernel.CreateInv` | tiny-risc-v/tests/example/FreeRTOS/Source/croutine.c:102-156 | so does a creation, with the priority clipped, in any state the scheduler can be in |
| `CoRoutineKernel.WakeInv` | tiny-risc-v/tests/example/FreeRTOS/Source/croutine.c:328-350 | so does a wake-up from an interrupt, in any state the scheduler can be in |
| `CoRoutineKernel.WakeCommutesTake` | tiny-risc-v/tests/example/FreeRTOS/Source/croutine.c:214 | a wake-up before a removal from a ready or delay list has the same effect as one after it, so interrupts within a step do not matter |
| `CoRoutineKernel.WakeCommutesPut` | tiny-risc-v/tests/example/FreeRTOS/Source/croutine.c:215 | nor do those before and after an insertion |
| `CoRoutineRuns.StepInv` | tiny-risc-v/tests/example/FreeRTOS/Source/croutine.c:102-350 | every atomic step keeps the invariant |
| `CoRoutineRuns.RunInv` | tiny-risc-v/tests/example/FreeRTOS/Source/croutine.c:102-350 | hence every run of such steps, in any order, does |
| `CoRoutineRuns.InitialInv` | tiny-risc-v/tests/example/FreeRTOS/Source/croutine.c:308-325 | it holds once the lists have been initialised |
| `CoRoutineRuns.NeverStuck` | tiny-risc-v/tests/example/FreeRTOS/Source/croutine.c:197-305 | in every such state the scheduler has a next step of its own, and only the right one when it is half-way through a move |
| `CoRoutineRuns.NothingLost` | tiny-risc-v/tests/example/FreeRTOS/Source/croutine.c:102-350 | after any run, counted over all lists, the generic item is exactly once on its own ready list or a delay list, except for the one just taken off to be made ready; the event item is at most once on all event lists and the pending list |
| `CoRoutineRuns.DelayExact` | tiny-risc-v/tests/example/FreeRTOS/Source/croutine.c:159-275 | a co-routine that delays itself for d ticks and is not woken by an event is on a delay list until the d-th tick is processed and ready after it, whatever else happens and across the wrap of the tick counter |
| `CoRoutineRuns.StepElapses` | tiny-risc-v/tests/example/FreeRTOS/Source/croutine.c:159-275 | each step leaves the distance to the wake time alone, except a tick, which takes one off |
| `CoRoutineRuns.EmptyAtSwap` | tiny-risc-v/tests/example/FreeRTOS/Source/croutine.c:231-242 | the delayed list is empty whenever it becomes the overflow list |
| `CoRoutineRuns.PickIsHighest` | tiny-risc-v/tests/example/FreeRTOS/Source/croutine.c:287-299 | the scheduler runs a co-routine whenever one is ready, and then one of maximal priority |
| `CoRoutineRuns.WakeIsBest` | tiny-risc-v/tests/example/FreeRTOS/Source/croutine.c:328-338 | the one woken has the highest priority of those that wait for the event and, among equals, has waited longest |
| `CoRoutineTurns.EqualShare` | tiny-risc-v/tests/example/FreeRTOS/Source/croutine.c:297-299 | between two picks of one co-routine every other one of its priority is picked, in every run in which both stay ready |
| `CoRoutineTurns.EachOnceARound` | tiny-risc-v/tests/example/FreeRTOS/Source/croutine.c:297-299 | while none of a priority blocks or becomes ready, as many picks at that priority as it has ready co-routines run each of them exactly once |
| `CoRoutineTurns.NewcomerWaits` | tiny-risc-v/tests/example/FreeRTOS/Source/croutine.c:214-215 | of one that becomes ready and one that is ready, whichever step makes it so: the newcomer is picked later, unless pxIndex stands on the other; then it is picked earlier |
| `CoRoutineTurns.AtMostTwice` | tiny-risc-v/tests/example/FreeRTOS/Source/croutine.c:278-305 | whoever blocks and comes back meanwhile, none is picked more than twice while another of its priority stays ready and is not picked |
| `CoRoutineTurns.PickedTwice` | tiny-risc-v/tests/example/FreeRTOS/Source/croutine.c:159-305 | and this run does pick one twice |
| `CoRoutineTurns.RunOnTurn` | tiny-risc-v/tests/example/FreeRTOS/Source/croutine.c:278-305 | in every run pxIndex of its ready list stands on the co-routine that runs |
| `CoRoutines.Scheduler.Create` | tiny-risc-v/tests/example/FreeRTOS/Source/croutine.c:102-156 | the code makes exactly that step |
| `CoRoutines.Scheduler.AddToDelayedList` | tiny-risc-v/tests/example/FreeRTOS/Source/croutine.c:159-194 | the code makes exactly that step |
| `CoRoutineEvents.DelayJoins` | tiny-risc-v/tests/example/FreeRTOS/Source/croutine.c:188-193 | a delay with an event puts the event item on its list behind every co-routine of the same or a higher priority and in front of those of a lower one; without an event it is on none; no other event list changes |
| `CoRoutineEvents.WakeAppends` | tiny-risc-v/tests/example/FreeRTOS/Source/croutine.c:328-338 | a wake-up takes the head of the event list to the end of the pending list |
| `CoRoutineEvents.BestIsHead` | tiny-risc-v/tests/example/FreeRTOS/Source/croutine.c:328-338 | the waiter that precedes all others is that head |
| `CoRoutineEvents.WokenGetsReady` | tiny-risc-v/tests/example/FreeRTOS/Source/croutine.c:197-350 | in every run after an interrupt has signalled the event, the best waiter has become ready by the time nothing is pending and the scheduler is between two moves |
| `CoRoutineEvents.WokenInOrder` | tiny-risc-v/tests/example/FreeRTOS/Source/croutine.c:197-217 | those pending are made ready in the order they were woken, in every run: while one is pending none woken later is taken |
| `CoRoutineRuns.CreatedAs` | tiny-risc-v/tests/example/FreeRTOS/Source/croutine.c:102-156 | a new co-routine is ready, at the priority asked for or the highest there is |
| `CoRoutines.Scheduler.RemoveFromEventList` | tiny-risc-v/tests/example/FreeRTOS/Source/croutine.c:328-350 | the code makes exactly that step; it reports whether the woken co-routine has at least the priority of the current one |
| `CoRoutines.Scheduler.CheckPendingReadyList` | tiny-risc-v/tests/example/FreeRTOS/Source/croutine.c:197-217 | the loop terminates although interrupts keep coming, makes a run of the atomic steps, and leaves nothing pending |
| `CoRoutines.Scheduler.CheckDelayedList` | tiny-risc-v/tests/example/FreeRTOS/Source/croutine.c:220-275 | the nested loops make a run with as many ticks as have passed modulo 2^32 and end with the tick counter at the present |
| `CoRoutines.Scheduler.ExpireDelays` | tiny-risc-v/tests/example/FreeRTOS/Source/croutine.c:244-271 | the inner loop terminates and leaves nothing due |
| `CoRoutines.Scheduler.FindReady` | tiny-risc-v/tests/example/FreeRTOS/Source/croutine.c:287-295 | the search down the ready lists |
| `CoRoutines.Scheduler.Schedule` | tiny-risc-v/tests/example/FreeRTOS/Source/croutine.c:278-305 | a whole call, up to the call of the co-routine: a run of the atomic steps after which the one chosen is ready and of maximal priority, and none is chosen only when none is ready |
| `StreamBuffers.CountsRightIff` | tiny-risc-v/tests/example/FreeRTOS/Source/stream_buffer.c:470-491 | the byte and space counts in 32-bit size_t are right for all positions exactly when the ring has at most 2^31 bytes |
| `StreamBuffers.BytesRight` | tiny-risc-v/tests/example/FreeRTOS/Source/stream_buffer.c:1189-1206 | prvBytesInBuffer is right at given positions exactly when its first sum stays below 2^32 |
| `StreamBuffers.UnreadKept` | tiny-risc-v/tests/example/FreeRTOS/Source/stream_buffer.c:1106-1113 | no store of the writer hits an unread byte, whatever the reader is doing |
| `StreamBuffers.StepInv` | tiny-risc-v/tests/example/FreeRTOS/Source/stream_buffer.c:1088-1186 | every step of either side, down to single byte copies and the stores of xHead and xTail, keeps the invariant |
| `StreamBuffers.RefinesFifo` | tiny-risc-v/tests/example/FreeRTOS/Source/stream_buffer.c:1088-1206 | in every state that any interleaving of one writer and one reader reaches, bytes sent are bytes received followed by the contents, and bytes and spaces available as computed add up to the size |
| `StreamBuffers.EverySendAccepts` | tiny-risc-v/tests/example/FreeRTOS/Source/stream_buffer.c:677-683 | in every run from the start of a send to the next one, whatever the reader does: the send adds exactly as much of its data as there was space for when it began, at the moment it ends |
| `StreamBuffers.SendAccepts` | tiny-risc-v/tests/example/FreeRTOS/Source/stream_buffer.c:677-683 | and from any state it can be finished |
| `StreamBuffers.EveryReceiveDelivers` | tiny-risc-v/tests/example/FreeRTOS/Source/stream_buffer.c:957-964 | in every run from the start of a receive to the next one, whatever the writer does: the receive delivers, in order, exactly as much as was there when it began, up to what is asked for |
| `StreamBuffers.ReceiveDelivers` | tiny-risc-v/tests/example/FreeRTOS/Source/stream_buffer.c:957-964 | and from any state it can be finished |
| `StreamBuffers.StreamBuffer.WriteBytes` | tiny-risc-v/tests/example/FreeRTOS/Source/stream_buffer.c:1088-1131 | the two copies append exactly the data to the contents |
| `StreamBuffers.StreamBuffer.ReadBytes` | tiny-risc-v/tests/example/FreeRTOS/Source/stream_buffer.c:1134-1186 | the two copies take exactly the oldest bytes, and write no more of the destination |
| `StreamBuffers.StreamBuffer.Send` | tiny-risc-v/tests/example/FreeRTOS/Source/stream_buffer.c:506-607 | a stream takes as much as fits; a message buffer appends one whole frame or nothing |
| `StreamBuffers.StreamBuffer.Receive` | tiny-risc-v/tests/example/FreeRTOS/Source/stream_buffer.c:713-814 | a message buffer yields the oldest message exactly, or nothing and stays unchanged when it is empty or the space offered is too small |
| `StreamBuffers.StreamBuffer.ReceiveMessage` | tiny-risc-v/tests/example/FreeRTOS/Source/stream_buffer.c:918-967 | reading the length, comparing, and putting the tail back |
| `StreamBuffers.StreamBuffer.NextMessageLength` | tiny-risc-v/tests/example/FreeRTOS/Source/stream_buffer.c:817-858 | the length of the oldest message or 0; nothing changes |
| `StreamBuffers.ParseEncode` | tiny-risc-v/tests/example/FreeRTOS/Source/stream_buffer.c:661-710 | the contents of a message buffer parse in one way only, as the messages sent |
| `StreamBuffers.LengthRoundTrip` | tiny-risc-v/tests/example/FreeRTOS/Source/stream_buffer.c:691 | a length stored in four bytes is read back |
| `EventGroups.SetBitsExact` | tiny-risc-v/tests/example/FreeRTOS/Source/event_groups.c:519-610 | exactly the waiters whose condition holds in old or new bits are released, all judged on the same bits and handed those; what remains is these bits less what the released clear-on-exit waiters waited for |
| `EventGroups.EventGroup.Set` | tiny-risc-v/tests/example/FreeRTOS/Source/event_groups.c:519-610 | the walk over the shrinking list does that |
| `EventGroups.NoneForgotten` | tiny-risc-v/tests/example/FreeRTOS/Source/event_groups.c:191-610 | in every state any run of set, clear, wait, sync, time-out and resume steps reaches, no waiting task has its condition met by the current bits, and a released task will return bits that meet its condition |
| `EventGroups.StepInv` | tiny-risc-v/tests/example/FreeRTOS/Source/event_groups.c:191-610 | every step keeps the invariant behind that |
| `EventGroups.RendezvousCompletes` | tiny-risc-v/tests/example/FreeRTOS/Source/event_groups.c:206-221 | the arrival that completes a rendezvous releases every task waiting in it, with a value that contains the bits, which end up clear |
| `EventGroups.Rendezvous` | tiny-risc-v/tests/example/FreeRTOS/Source/event_groups.c:191-308 | parties arrive in any run whose other steps, of any other tasks, leave the bits of the rendezvous alone: none leaves while bits are missing; the arrival that brings the rest releases all of them, each with all the bits, and the bits are clear |
| `EventGroups.StepGathers` | tiny-risc-v/tests/example/FreeRTOS/Source/event_groups.c:191-610 | each such step keeps the parties waiting and exactly their bits set |
| `EventGroups.EventGroup.WaitBits` | tiny-risc-v/tests/example/FreeRTOS/Source/event_groups.c:311-399 | the code makes exactly that step; it returns the bits from before, or blocks |
| `EventGroups.WaitBegins` | tiny-risc-v/tests/example/FreeRTOS/Source/event_groups.c:311-399 | returns at once exactly when all, or any if that is asked for, of the bits are set, and then clears them if asked to; without block time it changes nothing; otherwise it joins the end of the list |
| `EventGroups.SyncBegins` | tiny-risc-v/tests/example/FreeRTOS/Source/event_groups.c:191-247 | sets the own bits, and clears the bits of the rendezvous and returns exactly when all of them are set; otherwise it blocks if it may |
| `EventGroups.SetReleasesIff` | tiny-risc-v/tests/example/FreeRTOS/Source/event_groups.c:519-610 | however long after a call, setting bits releases its task if and only if what it asked for, all or any, is set then; it returns all bits set then, and those it waited for are cleared only if it asked for that, apart from those others asked to clear |
| `EventGroups.TimedOutReturns` | tiny-risc-v/tests/example/FreeRTOS/Source/event_groups.c:266-300 | a task whose block time ran out returns the bits of the time it runs again, and clears its own if and only if it asked for that and they have come by then |
| `EventGroups.EventGroup.Sync` | tiny-risc-v/tests/example/FreeRTOS/Source/event_groups.c:191-247 | the same for a rendezvous, after setting the own bits |
| `EventGroups.EventGroup.Finish` | tiny-risc-v/tests/example/FreeRTOS/Source/event_groups.c:266-300 | a task that runs again returns what it was given, which meets its condition, or after a time-out the bits of now, cleared if its condition holds by then |
| `EventGroups.EventGroup.Clear` | tiny-risc-v/tests/example/FreeRTOS/Source/event_groups.c:461-485 | clears the bits, returns those before; no waiter is lost |
| `EventGroups.EventGroup.Delete` | tiny-risc-v/tests/example/FreeRTOS/Source/event_groups.c:613-652 | every waiter is released, to return no bits |
| `EventGroups.EventGroup.PlaceOnList` | tiny-risc-v/tests/example/FreeRTOS/Source/tasks.c:3081-3102 | the task joins the end of the list with its bits and control bits as item value |
| `EventGroups.EventGroup.RemoveFromList` | tiny-risc-v/tests/example/FreeRTOS/Source/tasks.c:3206-3251 | the task leaves the list with the new item value |
| `Memcpy.Memory.Copy` | amber_cpu/sw/mini-libc/memcpy.c:314-338 | for every count and every alignment of disjoint regions: the destination gets the source bytes, nothing else is written, every aligned word loaded overlaps the source, dest is returned |
| `Memcpy.Memory.CopyNoShift` | amber_cpu/sw/mini-libc/memcpy.c:224-256 | the aligned case with its eight-way unrolled loop |
| `Memcpy.Memory.CopyShift` | amber_cpu/sw/mini-libc/memcpy.c:260-296 | the shifted case, which carries one source word from store to store |
| `Memcpy.Memory.CopyRemaining` | amber_cpu/sw/mini-libc/memcpy.c:207-222 | the fall-through switch copies the last bytes |
| `Memcpy.Spliced` | amber_cpu/sw/mini-libc/memcpy.c:175-180 | what is stored is the upper bytes of one word and the lower bytes of the next |
| `Memcpy.ShiftsAre` | amber_cpu/sw/mini-libc/memcpy.c:134-143 | the byte moves of the model are the shifts of the 32-bit values |
| `Crc16.TableRight` | amber_cpu/sw/boot-loader-serial/crc16.c:32-65 | each of the 256 table entries is what eight shifts of the register make of its index |
| `Crc16.ByteStep` | amber_cpu/sw/boot-loader-serial/crc16.c:72 | one round of the loop with the table shifts in the eight bits of a byte |
| `Crc16.RegisterDivides` | amber_cpu/sw/boot-loader-serial/crc16.c:67-74 | the shift register holds the remainder of long division of the message times x^16 by x^16 + x^12 + x^5 + 1 |
| `Crc16.Crc16Ccitt` | amber_cpu/sw/boot-loader-serial/crc16.c:67-74 | the loop computes the shift register value of the message |
| `Crc16.CrcDivides` | amber_cpu/sw/boot-loader-serial/crc16.c:67-74 | hence that remainder, for every byte string |
| `Crc16.CrcLinear` | amber_cpu/sw/boot-loader-serial/crc16.c:67-74 | the CRC of the XOR of two messages is the XOR of their CRCs |
| `Crc16.MatchesDivides` | amber_cpu/sw/boot-loader-serial/xmodem.c:62-71 | the CRC branch of check accepts a frame exactly when the polynomial divides it |
| `Crc16.FramedMatches` | amber_cpu/sw/boot-loader-serial/xmodem.c:62-71 | it accepts every message with its CRC behind it |
| `Crc16.BurstDetected` | amber_cpu/sw/boot-loader-serial/xmodem.c:62-71 | it rejects every accepted frame after any damage confined to 16 consecutive bits of payload and CRC |
| `Xmodem.Check` | amber_cpu/sw/boot-loader-serial/xmodem.c:60-90 | the payload matches its CRC, or its sum modulo 256 |
| `Xmodem.SumFindsByte` | amber_cpu/sw/boot-loader-serial/xmodem.c:73-87 | the sum finds every change of one byte |
| `Xmodem.AwaitStart` | amber_cpu/sw/boot-loader-serial/xmodem.c:116-159 | the retry loop ends on a packet start, an EOT, two CANs, or after 80 tries |
| `Xmodem.ScanFinds` | amber_cpu/sw/boot-loader-serial/xmodem.c:116-153 | behind fewer than 80 other bytes the first SOH, STX, EOT or pair of CANs decides |
| `Xmodem.ScanFindsNothing` | amber_cpu/sw/boot-loader-serial/xmodem.c:116-159 | 80 tries without one find nothing |
| `Xmodem.FoundIsThere` | amber_cpu/sw/boot-loader-serial/xmodem.c:116-153 | what the loop ends on is in the input |
| `Xmodem.ReadPacket` | amber_cpu/sw/boot-loader-serial/xmodem.c:161-172 | a complete packet is a stretch of the input |
| `Xmodem.Validate` | amber_cpu/sw/boot-loader-serial/xmodem.c:175-177 | exactly the well-formed frames with a wanted number are good |
| `Xmodem.FrameMeans` | amber_cpu/sw/boot-loader-serial/xmodem.c:175-177 | well-formed: the second number is the complement of the first, and CRC or sum is that of the payload |
| `Xmodem.Take` | amber_cpu/sw/boot-loader-serial/xmodem.c:178-187 | the payload is appended when its number is the next one, within destsz |
| `Xmodem.Receive` | amber_cpu/sw/boot-loader-serial/xmodem.c:99-217 | for every input: terminates; dest holds what the good frames, found in order in the input, make; behind the last one the result is their length if and only if an EOT ends the wait, -1 if and only if two CANs do, -2 if and only if nothing does, and -3 after too many repeats; one ACK per good frame, end and cancellation |
| `Xmodem.CleanTransfer` | amber_cpu/sw/boot-loader-serial/xmodem.c:99-217 | an input that is CRC frames numbered 1, 2, .. modulo 256 and then EOT is taken whole: the result is the length of the file or of the room for it, and dest holds that much of it |
| `Xmodem.StepCounted` | amber_cpu/sw/boot-loader-serial/xmodem.c:175-207 | whatever arrives, the receiver counts the blocks taken modulo 256 and takes at most 24 repeats between two of them |
| `Xmodem.ArrivesInStep` | amber_cpu/sw/boot-loader-serial/xmodem.c:175-187 | while the sender is less than 256 blocks ahead, a frame with an 8-bit number that wraps is taken only if it is the next block, and what is held stays the beginning of the file |
| `Xmodem.Safety` | amber_cpu/sw/boot-loader-serial/xmodem.c:99-217 | for every run of a sender that goes on with any unused ACK, over a line that drops, repeats and detectably damages frames, with the sender less than 256 blocks ahead: blocks are taken once each and in order, and what is held is the beginning of the file, of at most destsz bytes |
| `Xmodem.LeadIff` | amber_cpu/sw/boot-loader-serial/xmodem.c:175-187 | up to a lead of 256, nothing that can arrive is taken for another block if and only if the lead is below 256 |
| `Xmodem.OrderIff` | amber_cpu/sw/boot-loader-serial/xmodem.c:99-217 | all runs take the blocks in order if and only if the file has at most 267 blocks: with more, 25 ACKs for each of 11 blocks bring the sender 256 blocks ahead |
| `Xmodem.WholeIff` | amber_cpu/sw/boot-loader-serial/xmodem.c:99-217 | whenever the sender is done, in any run, the receiver has got the whole file, if and only if the file has at most one block; for every number of blocks, none of them empty, for which there is room |
| `Xmodem.ShortWholeIff` | amber_cpu/sw/boot-loader-serial/xmodem.c:99-217 | for at most 267 blocks, empty ones and too little room included: if and only if the first n/25 blocks, rounded up, already make all that the memory can hold of the file |
| `Xmodem.SecondAckLosesBlock` | amber_cpu/sw/boot-loader-serial/xmodem.c:99-217 | block 0 comes twice, both ACKs are used, and the sender of two blocks is done with the second never taken |
| `Xmodem.FramesIff` | amber_cpu/sw/boot-loader-serial/xmodem.c:99-217 | the good frames of the runs are exactly the well-received copies of blocks in which the i-th is of a block up to i and none comes after the next but one |
| `Xmodem.ReceivedSafely` | amber_cpu/sw/boot-loader-serial/xmodem.c:99-217 | after any call of xmodemReceive whose good frames are such copies, dest holds the beginning of the file, within destsz, and the rest of it is untouched, for every file of at most 267 blocks and otherwise while no block is 256 ahead; with as many good frames as blocks, at least the first n/25 blocks, rounded up |
| `Tftp.HoldsPrefix` | amber_cpu/sw/boot-loader-ethmac/tftp.c:78-140 | for every run of a lock-step sender of fewer than 65536 blocks over a network that loses, repeats and delays data and acknowledgements, with no write request after data: the chain holds the beginning of the file, total_bytes is its length, and ready means the whole file |
| `Tftp.StepSafe` | amber_cpu/sw/boot-loader-ethmac/tftp.c:78-140 | every packet keeps the invariant behind that |
| `Tftp.RequestHarmlessIff` | amber_cpu/sw/boot-loader-ethmac/tftp.c:95-109 | after a write request no continuation ends ready with a wrong file if and only if no data had been taken before it or the file is a single block |
| `Tftp.LateRequestShort` | amber_cpu/sw/boot-loader-ethmac/tftp.c:95-109 | when data had been taken and the file has several blocks, this run ends with ready set and a file that is too short |
| `Tftp.RequestKeepsFileIff` | amber_cpu/sw/boot-loader-ethmac/tftp.c:95-109 | after a write request every continuation in which the sender has all blocks acknowledged ends ready with the right file if and only if no data had been taken before it |
| `Tftp.LateRequestLoses` | amber_cpu/sw/boot-loader-ethmac/tftp.c:95-109 | when data had been taken some run ends with every block acknowledged and the file too short or, for a single block, not there |
| `Tftp.Server.Write` | amber_cpu/sw/boot-loader-ethmac/tftp.c:95-109 | a write request begins a new file, whatever there was |
| `Tftp.Server.Data` | amber_cpu/sw/boot-loader-ethmac/tftp.c:112-135 | the block chain on the heap follows the specification: distinct linked blocks, all but the last full |
| `Tftp.Server.ProcessFile` | amber_cpu/sw/boot-loader-ethmac/tftp.c:207-230 | the walk over the chain builds exactly what it holds, within total_bytes |
| `Tftp.SplitIs` | amber_cpu/sw/boot-loader-ethmac/tftp.c:126-133 | blocks of 512 bytes and a shorter one, of no bytes for a multiple of 512, make up the file |
| `SoftMulDiv.UMulSi3` | dark-risc-v/src/stdio.c:276-285 | the product modulo 2^32 |
| `SoftMulDiv.MulSi3` | dark-risc-v/src/stdio.c:287-297 | the signed product, wrapped to 32 bits |
| `SoftMulDiv.Align` | dark-risc-v/src/stdio.c:305 | the shift-up loop ends without losing a bit, with the divisor more than half the dividend |
| `SoftMulDiv.UDivUModSi3` | dark-risc-v/src/stdio.c:299-309 | quotient and remainder for every operand; 0 when the divisor is 0 |
| `SoftMulDiv.DivModSi3` | dark-risc-v/src/stdio.c:321-334 | the quotient truncated toward zero, the remainder with the sign of the dividend, wrapped to 32 bits |
| `SoftMulDiv.TruncatesIff` | dark-risc-v/src/stdio.c:321-334 | there is exactly one such quotient and remainder |
| `SoftMulDiv.QuotientFits` | dark-risc-v/src/stdio.c:321-344 | only -2^31 / -1 wraps, and comes out as -2^31 |
| `InternetChecksum.HeaderChecksum16` | amber_cpu/sw/boot-loader-ethmac/packet.c:376-396 | the folded ones' complement sum, with a sum kept in 32 bits that never overflows up to 65535 bytes |
| `InternetChecksum.FoldIs` | amber_cpu/sw/boot-loader-ethmac/packet.c:389-392 | folding keeps the sum modulo 65535 and gives 0 only for 0 |
| `InternetChecksum.FieldMakesZero` | amber_cpu/sw/boot-loader-ethmac/packet.c:376-396 | a checksum put into a zeroed field at an even position makes the recomputed checksum 0, for every length, odd ones too |
| `InternetChecksum.OneWordDetected` | amber_cpu/sw/boot-loader-ethmac/packet.c:376-396 | a change of one word is missed only between 0x0000 and 0xffff |
| `InternetChecksum.IpHeader` | amber_cpu/sw/boot-loader-ethmac/packet.c:96-140 | the header written has checksum 0 and the given fields; nothing else is written |
| `InternetChecksum.TcpChecksum` | amber_cpu/sw/boot-loader-ethmac/tcp.c:683-711 | the checksum of the segment behind the pseudo header: addresses, a zero byte, protocol 6, length |
| `InternetChecksum.PseudoHeader` | amber_cpu/sw/boot-loader-ethmac/tcp.c:683-711 | the sum the code starts from is that of those bytes |
| `InternetChecksum.TcpFieldsAre` | amber_cpu/sw/boot-loader-ethmac/tcp.c:566-648 | where the fields of a reply stand: ports exchanged, numbers, length of the header, flags ACK, SYN, FIN, RST, window |
| `InternetChecksum.IpFieldsAre` | amber_cpu/sw/boot-loader-ethmac/packet.c:101-134 | where the fields of an IP header stand |
| `InternetChecksum.TcpHeader` | amber_cpu/sw/boot-loader-ethmac/tcp.c:552-680 | header and payload together have checksum 0; sequence numbers are updated; nothing else is written |
| `InternetChecksum.ParseTcpPacket` | amber_cpu/sw/boot-loader-ethmac/tcp.c:159-173 | a segment is taken exactly when its checksum is 0, its length being the 16-bit difference of the two in the IP header, also where that wraps |
| `InternetChecksum.SegmentAcceptedIff` | amber_cpu/sw/boot-loader-ethmac/tcp.c:159-173 | a segment with checksum 0 for one pair of addresses, sent with another pair in its IP header, is accepted at the other end if and only if the pairs have the same ones' complement sum; swapping the two is harmless |
| `InternetChecksum.TcpReply` | amber_cpu/sw/boot-loader-ethmac/tcp.c:437-470 | for every socket and any payload that an IP packet can carry, the reply is accepted at the other end if and only if the addresses it was summed with have the same sum as those it is sent with; it carries the payload |
| `InternetChecksum.ReplyAddress` | amber_cpu/sw/boot-loader-ethmac/tcp.c:404 | that is, if and only if the sender of the last packet and the stored dest_ip are equal modulo 65535 as sums of words |
| `InternetChecksum.OtherHostRejected` | amber_cpu/sw/boot-loader-ethmac/tcp.c:211-214 | a reply summed for 10.0.0.1 and sent to 10.0.0.2 is rejected |

## Left out

- CoreMark: the checksum that `core_bench_list` returns, `core_list_init`, and the state and matrix kernels;
  what `calc_func` computes with these is an arbitrary value. The empty list, on which `core_list_mergesort`
  dereferences a null pointer, is excluded.
- FreeRTOS lists: the integrity-check words.
- CoRoutineKernel.DelayInv: a delay of 0 ticks is excluded; the `crDELAY` macro never asks for one. The number
  of priorities is taken to fit a tick value.
- CoRoutines.Scheduler.Schedule: the call of the co-routine itself; what a co-routine does next are further
  calls. Allocation failure in `xCoRoutineCreate`, and the link from a list item to its owner, which is the
  co-routine's number here. The FreeRTOS demo configuration of the repository compiles co-routines out.
- The co-routine module keeps each list as a sequence with the place of `pxIndex` instead of heap items; the
  step from one to the other is what `KernelList` proves.
- Stream buffers: blocking, notifications, trigger levels, creation flags and deletion. Message-mode calls run
  one at a time, since they move `xTail` forward and back.
- StreamBuffers.RefinesFifo: rings above 2^31 bytes are excluded, since their counts go wrong (`CountsRightIff`);
  memcpy inside a copy is taken to store bytes in ascending order.
- Tftp.HoldsPrefix: files of 65536 blocks or more, whose 16-bit block numbers repeat, are excluded.
- Event groups: task priorities, the delayed list of the task code and the trace macros; a time-out is a step
  that takes the task off the list. The bits `xEventGroupSetBits` returns are read here before any other task
  runs. A task that times out before `vEventGroupDelete` and resumes after it is not modelled.
- Memcpy.Memory.Copy: regions that overlap, which the C standard excludes; big-endian and 64-bit configurations.
- XMODEM: liveness (rejects are unbounded, and a repeat of block 255 after the number has wrapped is refused),
  timing, and the output line beyond the bytes sent.
- Tftp.Server.Data: a DATA packet of more than 512 bytes, which the code copies past the end of the block's
  buffer (tftp.c:124); what the memory behind it then holds is not modelled. Nor is one whose UDP length is below
  12: its `tftp_len` is negative, lowers `total_bytes` and reaches memcpy as the count.
- TFTP: file names and modes beyond whether the mode is octet, read requests, memory exhaustion, a data packet
  before any write request (the code dereferences a null pointer), and the ELF splitter and reboot that follow.
- TCP: acknowledgement and retransmission bookkeeping, the telnet layer, options of received segments
  and the Ethernet header.
- UDP and ICMP replies, which use the same checksum functions.
- `__udivsi3` and `__umodsi3`, which only pass their operands on.
- Drivers, printf formatting, the virtual-memory code, the ELF and hex tools, Dhrystone, and the Verilog.
