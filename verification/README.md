# Receive, framing, descriptor and routing logic of the Qualcomm USB drivers

This project models five pieces of the Linux and Windows USB host drivers and proves
what they keep over every run.

* **The QDSS/DIAG receive path** (`Ring`, `Receive`, `Session`, `SessionBytes`, `SessionAlerts`,
  `SessionWakes`, `SessionRuns`, `SessionUrbs`, `ReceivePath`). USB
  completions append blocks to a circular buffer; blocks that do not fit wait on a list of parked
  URBs. Readers register on a notify list, are woken one at a time, and copy without holding the lock
  while completions go on writing. `Ring` holds the index arithmetic, cut at the points where the lock
  is dropped; `Receive` the other locked sections; `Session` is the state machine whose steps are
  the locked sections and the unlocked stretches between them, in any order, with any number of
  readers and completions; `SessionBytes`, `SessionAlerts` and `SessionWakes` prove what its steps keep of
  the bytes and of the wake-ups, and `SessionRuns` what that means for runs; `SessionUrbs` follows the URBs themselves. `ReceivePath` is the device
  object with its array and fields updated in place, each method proved to do what the
  function of its name says. Buffer length, number of URBs and number of pool slots are symbolic.
* **QMAP framing and uplink aggregation** (`Qmap`, `Aggregator`, `Uplink`, `FlushTimer`,
  `UplinkDevice`). Packets are framed, packed under a size and a count limit with one frame carried
  over, flushed by a restartable timer, and split again on the way in.
* **Descriptor injection and MUX lookup** (`Descriptors`, `MuxTable`). Virtual interface descriptors are
  appended to a configuration descriptor (sections 9.6.3 and 9.6.5 of the USB 2.0 specification) and a
  table is filled that must invert their numbering.
* **The filter's IRP queue** (`IrpQueue`). Dispatch, cancel routine and worker thread share a locked
  list and an atomically exchanged cancel-routine pointer.
* **QMI messages and their routing** (`Qmi`, `Requests`, `Routing`). The QMUX header, type-length-value
  fields, the request builders, and the delivery of messages to the queues of the clients.

`Bytes` and `Lists` hold what the modules share. Loops and in-place updates of the drivers are methods on
classes and arrays; the functions beside them are their specifications, and the lemmas are about those.

## What turned out not to hold

In each case the code is kept as it is, and the exact condition under which the property holds is proved,
or the condition and what a violation does at once where the last section says so.

* **A second copy beside the first.** Bytes are conserved, in order, at every moment of every run up to
  which no woken reader starts to copy while another is copying (`SessionRuns.NothingLostOrReordered`);
  with one reader registered at a time that is every reachable state (`SessionRuns.OneReaderLosesNothing`).
  A step keeps the invariant behind this if and only if it does not start such a second copy
  (`SessionBytes.StepKeepsSteady`); right after one that does, both readers have, or copy next, the same
  oldest byte (`SessionBytes.SecondCopyRepeats`). The parked queue and the wake-ups are in order in
  every run, second copies or not, for as long as the indices describe a buffer
  (`SessionRuns.ParkedInOrder`, `SessionRuns.NoLostWakeUp`).
* **A reader that gives up late** is how a second copy comes about. When `qti_wait_event` times out or is
  interrupted and `QTI_RX_EVT_FILL` is set for the reader before it takes the lock again, `ReadSyncBlk` frees
  its pool slot with the event still set, and the next reader that is given the slot wakes at once. No
  second copy starts in a run without such a late leave before it
  (`SessionRuns.SecondCopyNeedsLateLeave`); `SessionRuns.LateLeaveDeliversTwice` is a run in which one
  makes two readers return the same bytes.
* **The 16-bit length field of a QMAP frame.** One packet survives framing and splitting if and
  only if its padded length is at most 65535 (`Qmap.RoundTripIffLengthFits`).
* **An aggregate nobody looks at.** Two kinds of step, and no others, leave an aggregate with neither its
  timer nor its tasklet on its way: the tasklet's flush when `GobiNetDriver_tx_fixup` finds the device not
  ready, and a start of the timer that `cdc_ncm_tx_timeout_start` passes over because the timer's callback,
  which found the tasklet already scheduled, has not returned; each when nothing else is on its way
  (`FlushTimer.StepGuards`, `FlushTimer.RunGuards`). `FlushTimer.MissedStartStrands` is a run of the second
  kind: the tasklet runs on one processor beside the callback on another, and two frames wait for
  the next one to be sent. With no new frames a flush can still come if and only if no start was missed
  (`FlushTimer.GoesOutInTime`).
* **How often the timer expires while frames come in.** Once two frames are held the tasklet runs at most
  tx_timer_pending + 1 times before it flushes, but the timer can expire more often, when a frame starts it again
  while the tasklet is scheduled; the expiries that find the tasklet neither scheduled nor running keep
  within the bound (`FlushTimer.GoesOutDespiteSends`, `FlushTimer.ExpiriesBesideTasklet`).
* **A frame larger than an empty aggregate.** It is carried over and never fits: from then on nothing is
  sent and exactly the frames accepted are dropped, in every run (`Aggregator.OversizeFrameBlocks`,
  `Aggregator.BlockedForever`).
* **A short configuration descriptor header.** `USBPNP_ValidateConfigDescriptor` accepts a bLength of 1
  to 4, which does not cover the fields that are rewritten. Only the first descriptor is touched if and
  only if bLength is more than 4 (`Descriptors.ChainKeptIffHeaderCoversFields`); whatever bLength is, the
  chain falls into the same descriptors as before if and only if no rewritten byte that changes is
  itself a bLength (`Descriptors.CutsKeptIffNoLengthRewritten`). `Descriptors.ShortHeaderBreaksChain`
  is a descriptor whose chain breaks.
* **MUX lookup of interface 0.** An id is found if and only if it was assigned or is 0, which matches the
  entries that were never filled (`MuxTable.LookupSucceedsIffAssignedOrZero`).
* **The status of the two descriptor replies.** The header-only reply rejects an invalid header even when
  nothing would be added, the full reply does not; they differ exactly then (`MuxTable.HeaderReplyAgrees`).
* **A request cancelled while the worker dequeues it.** Each request is completed at most once, but one
  that the worker has unlinked is never completed if and only if its cancel routine is not set when
  the worker exchanges it (`IrpQueue.ClaimAbandonsIffCancelled`, `IrpQueue.AbandonedForever`).
* **An empty field at the end of a message.** The loop of `GetTLV` stops before a last field that has no value;
  a type is looked up rightly if and only if its first field is not that one (`Qmi.SeenUnlessEmptyLast`).

## Model

| member | source | states |
|---|---|---|
| ReadRing.FreeSpaceIsCapacityMinusStored | src/linux/qcom_usb/qcom_usb_main.c:417-440 | free space and stored length always add up to the capacity; the flag is set exactly when nothing is stored |
| ReadRing.AddRefinesFifo | src/linux/qcom_usb/qcom_usb_main.c:2804-2873 | a block is taken exactly when it fits the free space, then goes whole behind everything stored; otherwise nothing changes |
| ReadRing.BeginCorrect | src/linux/qcom_usb/qcom_usb_main.c:1028-1176 | a read finds nothing exactly when the buffer is empty; else its first range is not empty and can yield the smaller of wanted and stored |
| ReadRing.CopyReadsOldest | src/linux/qcom_usb/qcom_usb_main.c:1028-1196 | the range copied without the lock holds exactly the stored bytes that come next |
| ReadRing.AddSparesCopy | src/linux/qcom_usb/qcom_usb_main.c:2804-2873 | a block arriving during a copy is written outside the range being copied, in every branch, and the copy may go on |
| ReadRing.RetakeCorrect | src/linux/qcom_usb/qcom_usb_main.c:1028-1196 | with the lock retaken, exactly the bytes copied leave the buffer whatever arrived meanwhile, and the flag is set exactly when nothing is left; a first leg goes on with the bytes that follow |
| ReadRing.ReadAloneReturnsMin | src/linux/qcom_usb/qcom_usb_main.c:1008-1202 | with nothing arriving, a read returns exactly the smaller of wanted and stored from the front, and leaves the rest |
| Receive.IdleNodeLeft | src/linux/qcom_usb/qcom_usb_main.c:3064-3104 | parked URBs being distinct, an idle node is left for one that is not parked, and it is the one behind the busy prefix |
| Receive.AddToQueueParks | src/linux/qcom_usb/qcom_usb_main.c:3064-3104 | parking keeps the busy prefix in arrival order and puts the block behind all parked ones |
| Receive.PopMovesOldest | src/linux/qcom_usb/qcom_usb_main.c:2978-3062 | a pop moves the oldest parked block into the ring, or nothing when the queue is empty or its head does not fit; the re-park branch is never taken |
| Receive.NotifyExactly | src/linux/qcom_usb/qcom_usb_main.c:1293-1331 | with bytes stored, the head, or only the reader asked for if it is at the head, is put in process and sent FILL unless it is in process; otherwise nothing changes |
| Receive.PopResubmits | src/linux/qcom_usb/qcom_usb_main.c:3042-3060 | the URB of a block that a pop moves is with the core again and marked submitted if the core accepts it, else neither |
| Receive.DrainResubmits | src/linux/qcom_usb/qcom_usb_main.c:1198-1199 | of the URBs that leave the queue in a drain exactly those the core accepts are with it again; nothing else moves |
| Receive.DrainMarks | src/linux/qcom_usb/qcom_usb_main.c:1198-1199 | and exactly those are marked submitted |
| Receive.DrainMovesWhatFits | src/linux/qcom_usb/qcom_usb_main.c:1198-1199 | the drain loop ends, loses and reorders nothing, and leaves the queue empty or its head larger than the free space |
| SessionBytes.InitSteady | src/linux/qcom_usb/qcom_usb_main.c:3106-3179 | an opened session with empty buffer, idle nodes and unused pool satisfies the invariant of the bytes |
| SessionBytes.ArriveParks | src/linux/qcom_usb/qcom_usb_main.c:2937-2949 | a completion that must wait is parked behind everything received so far; nothing else moves |
| SessionBytes.ArriveStores | src/linux/qcom_usb/qcom_usb_main.c:2937-2955 | a completion that fits is stored behind everything received so far and every copy goes on undisturbed |
| SessionBytes.RegisterSteady | src/linux/qcom_usb/qcom_usb_main.c:1353-1362 | registration takes an unused slot and disturbs neither bytes nor copies |
| SessionBytes.GiveUpSteady | src/linux/qcom_usb/qcom_usb_main.c:1385-1410 | giving up, late or not, keeps bytes, copies and list in order |
| SessionBytes.EnterSteady | src/linux/qcom_usb/qcom_usb_main.c:1370-1383 | a woken reader copies from the oldest byte on, or leaves if nothing is stored; the invariant is kept if and only if this is not a second copy |
| SessionBytes.CopyAdvances | src/linux/qcom_usb/qcom_usb_main.c:2167-2194 | every stretch of unlocked copying extends a prefix of the stored bytes |
| SessionBytes.FinishLegSteady | src/linux/qcom_usb/qcom_usb_main.c:1085-1196 | going from the first leg of a wrapped read to the second keeps the invariant |
| SessionBytes.FinishReads | src/linux/qcom_usb/qcom_usb_main.c:1028-1196 | a finished read returned the oldest stored bytes, in order, at least as many as owed and at most as many as wanted |
| SessionBytes.FinishReadSteady | src/linux/qcom_usb/qcom_usb_main.c:1198-1202 | finishing a read, draining and leaving the list conserve the bytes |
| SessionBytes.StepKeepsSteady | src/linux/qcom_usb/qcom_usb_main.c:1333-1422 | every step of every interleaving keeps bytes conserved and one reader copying, if and only if it does not start a second copy |
| SessionBytes.SecondCopyRepeats | src/linux/qcom_usb/qcom_usb_main.c:1370-1383 | right after a step that starts a second copy, both readers have, or copy next, the same oldest byte |
| SessionAlerts.NotifyAlerts | src/linux/qcom_usb/qcom_usb_main.c:1293-1331 | NotifyUserRequest(NULL) leaves the head in process and told whenever there is data |
| SessionAlerts.StepKeepsAlert | src/linux/qcom_usb/qcom_usb_main.c:1333-1422 | no step whatever loses a wake-up or puts anyone but the head in process |
| SessionAlerts.StepKeepsMoving | src/linux/qcom_usb/qcom_usb_main.c:2937-3062 | no step whatever leaves parked blocks waiting for an empty ring |
| SessionWakes.NotifyServesHead | src/linux/qcom_usb/qcom_usb_main.c:1293-1331 | waking puts the head, and only the head, in process with its event set exactly when there is data |
| SessionWakes.RemoveKeepsOrder | src/linux/qcom_usb/qcom_usb_main.c:1270-1290 | a reader that leaves with its event clear leaves list, pool and other readers in order |
| SessionWakes.GiveUpKeeps | src/linux/qcom_usb/qcom_usb_main.c:1385-1410 | giving up after a timeout leaves no stale event if and only if the event was not set meanwhile |
| SessionWakes.EnterKeeps | src/linux/qcom_usb/qcom_usb_main.c:1370-1383 | without stale events, a reader woken by FILL always finds data and is the only one to copy |
| SessionWakes.StepKeepsInv | src/linux/qcom_usb/qcom_usb_main.c:1333-1422 | every step keeps events from going stale if and only if it is not a late leave |
| SessionRuns.NothingLostOrReordered | src/linux/qcom_usb/qcom_usb_main.c:2937-3062 | at every moment up to which no second copy has started, received = delivered ++ ring ++ parked blocks in queue order; parked blocks never wait for an empty ring |
| SessionRuns.OneReaderLosesNothing | src/linux/qcom_usb/qcom_usb_main.c:1333-1422 | with one reader registered at a time, no second copy starts and bytes are conserved in every reachable state, late leaves included |
| SessionRuns.SecondCopyNeedsLateLeave | src/linux/qcom_usb/qcom_usb_main.c:1385-1410 | a second copy starts only after some reader gave up late |
| SessionRuns.RunsKeepInv | src/linux/qcom_usb/qcom_usb_main.c:1333-1422 | no event is stale throughout a run if and only if no reader in it gives up late |
| SessionRuns.ParkedInOrder | src/linux/qcom_usb/qcom_usb_main.c:2978-3104 | in every run that is followed, busy nodes are a prefix in arrival order with distinct URBs, none in flight, and a parked block means a non-empty ring |
| SessionRuns.NoLostWakeUp | src/linux/qcom_usb/qcom_usb_main.c:1215-1331 | in every run that is followed: with data stored and a reader registered, the head and no other is in process, and it has FILL or is copying; a slot is used exactly while listed |
| SessionRuns.OnlyHeadCopies | src/linux/qcom_usb/qcom_usb_main.c:1293-1331 | without stale events only the reader at the head of the list copies |
| SessionRuns.CopyUndisturbed | src/linux/qcom_usb/qcom_usb_main.c:2167-2194 | no step of anyone else changes a copying reader, the bytes of its range or the start index |
| SessionRuns.InvariantMeansFollowed | src/linux/qcom_usb/qcom_usb_main.c:2167-2194 | a copying reader can always copy what it still owes and then finish |
| SessionRuns.OwedFromTheStart | src/linux/qcom_usb/qcom_usb_main.c:1370-1383 | what a read owes is the smaller of what it wants and what is stored when it starts to copy, and nobody changes it |
| SessionUrbs.StepMoves | src/linux/qcom_usb/qcom_usb_main.c:2875-2976 | each event moves exactly the URB it is about, from the core to the parked ones, to those about to go back, back to the core, or away |
| SessionUrbs.UrbsAccounted | src/linux/qcom_usb/qcom_usb_main.c:2774-3104 | in every run that is followed, every URB that was with the core at the start is in exactly one place: with the core, about to go back, parked, or given up by an error or a refused submission |
| SessionRuns.ReadReturnsOldest | src/linux/qcom_usb/qcom_usb_main.c:1008-1202 | a finished read appends to what was delivered the oldest stored bytes, between owed and wanted, and leaves nothing parked that would fit |
| SessionRuns.LateLeaveDeliversTwice | src/linux/qcom_usb/qcom_usb_main.c:1385-1410 | a run from an opened session with one late leave and the second copy it leads to, in which two bytes are received and delivered twice |
| ReceivePath.Device.ReadBufferFreeSpace | src/linux/qcom_usb/qcom_usb_main.c:417-440 | computes the free space, which with the stored length is the capacity |
| ReceivePath.Device.AddToReadMemList | src/linux/qcom_usb/qcom_usb_main.c:2804-2873 | in place: takes the block exactly when it fits and appends it, else changes nothing |
| ReceivePath.Device.AddToQueue | src/linux/qcom_usb/qcom_usb_main.c:3064-3104 | the loop parks the URB on the first idle node |
| ReceivePath.Device.NotifyUserRequest | src/linux/qcom_usb/qcom_usb_main.c:1293-1331 | in place: with data stored, the head (and only the reader asked for, if one is) is put in process and sent FILL, once; nothing else changes |
| ReceivePath.Device.AllocateRxNotifyItem | src/linux/qcom_usb/qcom_usb_main.c:1215-1230 | finds the first unused pool slot |
| ReceivePath.Device.AddToNotifyList | src/linux/qcom_usb/qcom_usb_main.c:1232-1267 | in place: the slot is used, quiet and last on the list, its event as the last user left it |
| ReceivePath.Device.RemoveNotification | src/linux/qcom_usb/qcom_usb_main.c:1270-1290 | in place: the registration is unlinked and its slot freed, its event left alone |
| ReceivePath.Device.PopFromQueueAndSubmit | src/linux/qcom_usb/qcom_usb_main.c:2978-3062 | in place: the first busy node's block goes into the ring and its URB back to the core, or nothing moves |
| ReceivePath.Device.BlkCallback | src/linux/qcom_usb/qcom_usb_main.c:2937-2955 | in place: the block is parked while others wait or when it does not fit, else stored, and the head reader woken |
| ReceivePath.Device.Drain | src/linux/qcom_usb/qcom_usb_main.c:1198-1199 | the loop performs pops until one moves nothing, which is the state DrainMovesWhatFits describes |
| ReceivePath.Device.BeginCopy | src/linux/qcom_usb/qcom_usb_main.c:1028-1112 | up to the first unlocked copy: nothing to read exactly when the buffer is empty, else the first range to copy |
| ReceivePath.Device.EndCopy | src/linux/qcom_usb/qcom_usb_main.c:1043-1182 | in place, after an unlocked copy and whatever arrived meanwhile: exactly the bytes copied leave the buffer, or the second leg is begun |
| ReceivePath.Device.CopyFromReadMemList | src/linux/qcom_usb/qcom_usb_main.c:1008-1202 | in place, nothing arriving: returns the oldest bytes, the smaller of wanted and stored, removes exactly those, then drains |
| Qmap.Skb.QmapMux | src/linux/qcom_usbnet/qmap.c:92-114 | in place: the buffer becomes the frame of the packet |
| Qmap.FrameBytes | src/linux/qcom_usbnet/qmap.c:92-114 | the frame byte by byte: padding count, mux id, padded length high byte first, packet, zeros up to a multiple of four |
| Qmap.AnyFrameRead | src/linux/qcom_usbnet/qcom_usbnet_main.c:1988-2084 | frames that qmap_mux does not write are read by their bytes too: any padding count up to 63, reserved bit ignored, nothing past a command bit |
| Qmap.RouteInvertsProbe | src/linux/qcom_usbnet/qcom_usbnet_main.c:2886-2895 | routing by mux id gives back the device the id was assigned to, whichever device received the aggregate |
| Qmap.SplitAggregate | src/linux/qcom_usbnet/qcom_usbnet_main.c:1988-2084 | the loop ends for every input and delivers exactly the packets of the specified split |
| Qmap.SplitInvertsFrames | src/linux/qcom_usbnet/qcom_usbnet_main.c:1988-2084 | splitting the frames of any packets, with anything behind, gives those packets on their devices in order, then what is behind |
| Qmap.CommandEndsAggregate | src/linux/qcom_usbnet/qcom_usbnet_main.c:1988-2084 | a command frame ends its aggregate after exactly the packets before it |
| Qmap.RoundTripIffLengthFits | src/linux/qcom_usbnet/qmap.c:92-114 | one packet survives framing and splitting if and only if its padded length fits 16 bits |
| Aggregator.StepAccounts | src/linux/qcom_usbnet/qcom_usbnet_main.c:1629-1827 | every call accounts for every frame held or handed in: sent, held or counted as dropped; what is sent keeps both limits; the overhead is size minus payload |
| Aggregator.StepInOrder | src/linux/qcom_usbnet/qcom_usbnet_main.c:1629-1827 | when frames fit and allocation succeeds: nothing dropped, order kept, never an aggregate and a carried-over frame at once, a send below the count limit leaves a frame that would not have fitted, a flush empties everything |
| Aggregator.WaitsOnly | src/linux/qcom_usbnet/qcom_usbnet_main.c:1759-1769 | frames are left waiting only below the count limit, with none carried over, no flush and an interval; fewer than three renew tx_timer_pending to 2, three or more leave it alone |
| Aggregator.SendsOnly | src/linux/qcom_usbnet/qcom_usbnet_main.c:1759-1801 | frames are sent only at the count limit, with one left over that did not fit, on a flush or without an interval; counters start again and tx_reason_max_datagram counts exactly the full aggregates |
| Aggregator.SendsExactlyWhen | src/linux/qcom_usbnet/qcom_usbnet_main.c:1643-1801 | when frames fit: a call sends if and only if the frames in hand reach the count limit or exceed the size limit, or are flushed, or there is no interval |
| Aggregator.RunAccounts | src/linux/qcom_usbnet/qcom_usbnet_main.c:1664-1801 | over every run, oversize frames and failed allocations included: accepted = sent + held + dropped, limits kept, total overhead = sum over the frames sent of what the driver does not count as payload |
| Aggregator.RunInOrder | src/linux/qcom_usbnet/qcom_usbnet_main.c:1643-1826 | over every run with fitting frames: sent ++ held = accepted in order, nothing dropped, and a final flush leaves nothing |
| Aggregator.OversizeFrameBlocks | src/linux/qcom_usbnet/qcom_usbnet_main.c:1643-1749 | one frame larger than tx_max, taken by an idle context, is carried over and blocks it |
| Aggregator.BlockedForever | src/linux/qcom_usbnet/qcom_usbnet_main.c:1643-1749 | in every run of a blocked context nothing is sent, flushes included, and exactly the frames accepted are dropped |
| Aggregator.OverheadIsSizeMinusPayload | src/linux/qcom_usbnet/qcom_usbnet_main.c:1745-1801 | the overhead added per aggregate, size minus payload counter, is the sum over its frames |
| Uplink.SplitAllInverts | src/linux/qcom_usbnet/qcom_usbnet_main.c:1988-2084 | however frames are cut into aggregates, splitting them in turn gives the packets back |
| Uplink.RoundTrip | src/linux/qcom_usbnet/qcom_usbnet_main.c:1880-1921 | framing, aggregation and splitting end to end: the aggregates sent so far yield exactly the oldest packets, on their devices, in order; all of them after a flush |
| Uplink.FramesCount | src/linux/qcom_usbnet/qcom_usbnet_main.c:1745-1801 | for the frames of any packets the payload counter is the sum of the packets' lengths and the overhead four bytes and the padding of each |
| Uplink.RunCounts | src/linux/qcom_usbnet/qcom_usbnet_main.c:1664-1801 | over every run on framed packets, oversize frames and failed allocations included: tx_overhead is four bytes and the padding of each frame sent, and bytes sent minus it are the packets sent |
| Uplink.RoundTripCounts | src/linux/qcom_usbnet/qcom_usbnet_main.c:1745-1801 | when everything fits, tx_overhead is four bytes and the padding of exactly the packets sent so far |
| FlushTimer.FlushLeavesNoFrames | src/linux/qcom_usbnet/qcom_usbnet_main.c:1629-1827 | a flush sends a waiting aggregate whole and leaves none |
| FlushTimer.StepGuards | src/linux/qcom_usbnet/qcom_usbnet_main.c:1822-1876 | every step leaves a waiting aggregate with timer, callback or tasklet on its way, if and only if it is neither a refused flush nor a missed start |
| FlushTimer.RunGuards | src/linux/qcom_usbnet/qcom_usbnet_main.c:1822-1876 | that holds throughout a run, with tx_timer_pending within its limit, if and only if no flush in it is refused and no start missed |
| FlushTimer.MissedStartStrands | src/linux/qcom_usbnet/qcom_usbnet_main.c:1829-1876 | a run from an idle context with no refused flush in which a missed start leaves two frames stranded |
| FlushTimer.GoesOutInTime | src/linux/qcom_usbnet/qcom_usbnet_main.c:1829-1876 | with no new frames, from any guarded state and in any order of the steps of timer, callback and tasklet, overlapping ones included: at most tx_timer_pending + 1 expiries and boundedly many events before the flush, which sends the frames held; it can still come if and only if no start was missed, and then something can always happen |
| FlushTimer.GoesOutDespiteSends | src/linux/qcom_usbnet/qcom_usbnet_main.c:1759-1876 | once two frames are held and whatever frames come in: at most tx_timer_pending + 1 runs of the tasklet before the flush, and at most so many expiries that find it neither scheduled nor running; the frames held stay first and the flush sends them |
| FlushTimer.ExpiriesBesideTasklet | src/linux/qcom_usbnet/qcom_usbnet_main.c:1829-1876 | a run with tx_timer_pending 0 and two expiries before the flush, a frame having started the timer again while the tasklet was scheduled |
| FlushTimer.StoppedStartsNothing | src/linux/qcom_usbnet/qcom_usbnet_main.c:1829-1853 | once stopped, no step starts the timer or schedules the tasklet |
| FlushTimer.FlagsSetAlone | src/linux/qcom_usbnet/qcom_usbnet_main.c:1829-1853 | the stop flag and readiness change by their own events alone |
| FlushTimer.RestingTakesAll | src/linux/qcom_usbnet/qcom_usbnet_main.c:1829-1876 | from rest, with nothing in between, the flush comes after exactly tx_timer_pending + 1 expiries |
| UplinkDevice.Context.AggrTxFrame | src/linux/qcom_usbnet/qcom_usbnet_main.c:1629-1827 | in place, on the buffers: the bytes sent are the frames the specification sends, one after the other, and every counter agrees |
| UplinkDevice.Context.PackFrames | src/linux/qcom_usbnet/qcom_usbnet_main.c:1696-1749 | the packing loop: carried-over frame first, frames appended while they fit, the one that does not carried over, a second one counted as dropped |
| Descriptors.InjectAnnounces | src/windows/filter/qcfilter.c:3338-3356 | descriptor k = i * m + j behind the original is 9, 4, 0x80 + k, 0, 0, 0xff, 0xff, 0xff, 0 |
| Descriptors.InjectCounts | src/windows/filter/qcfilter.c:3330-3332 | total length grows by nine bytes and the interface count by one for each of the n * m descriptors, least significant byte first |
| Descriptors.ValidatesExactly | src/windows/filter/qcfilter.c:3264-3298 | accepted are exactly configuration descriptors that give their own length as 1 to 9 and a total of 9 or more |
| Descriptors.InjectKeepsChain | src/windows/filter/qcfilter.c:3316-3361 | if the walk by bLength ended at wTotalLength, so does that of the result: old descriptors there with only wTotalLength and bNumInterfaces rewritten, one interface descriptor appended per virtual interface, bNumInterfaces in step |
| Descriptors.ChainKeptIffHeaderCoversFields | src/windows/filter/qcfilter.c:3316-3361 | only the first descriptor is touched if and only if its bLength is more than 4 |
| Descriptors.CutsKeptIffNoLengthRewritten | src/windows/filter/qcfilter.c:3316-3361 | for every bLength: the result chains with the same descriptor boundaries if and only if no rewritten byte that changes is a bLength |
| Descriptors.ShortHeaderBreaksChain | src/windows/filter/qcfilter.c:3264-3298 | a descriptor that passes validation and whose chain injection breaks |
| Descriptors.TimesIsProduct | src/windows/filter/qcfilter.c:2932-2936 | the number of interfaces the nested loops add is the product that was precomputed |
| MuxTable.Filter.SelectAndAddInterfaces | src/windows/filter/qcfilter.c:3316-3361 | in place: the descriptor becomes the injected one, the bytes behind it stay, virtual interface j of physical interface i is announced by descriptor i * m + j with number 0x80 + i * m + j, the table records that very byte, and the new length is reported |
| MuxTable.Filter.GetMuxInterface | src/windows/filter/qcfilter.c:1583-1617 | the nested search returns the first row that has the id as its physical id or among its virtual ones |
| MuxTable.AnnouncedIsFound | src/windows/filter/qcfilter.c:1583-1617 | the interface number read from an appended descriptor is looked up to the physical interface behind it |
| MuxTable.VirtualIdsDistinct | src/windows/filter/qcfilter.c:3338-3358 | virtual ids are equal if and only if they are the same virtual interface of the same physical one |
| MuxTable.VirtualLookup | src/windows/filter/qcfilter.c:1583-1617 | looking up a virtual id gives its physical interface |
| MuxTable.PhysicalLookup | src/windows/filter/qcfilter.c:1583-1617 | looking up a physical id gives itself |
| MuxTable.LookupSucceedsIffAssignedOrZero | src/windows/filter/qcfilter.c:1583-1617 | the lookup succeeds if and only if the id was assigned or is 0 |
| MuxTable.RepliesExactly | src/windows/filter/qcfilter.c:1863-1926 | interfaces are added exactly with multiplexing on and at least start + n - 1 interfaces counted; the full reply then fails exactly for an invalid header, the header-only reply for any invalid one |
| MuxTable.HeaderReplyAgrees | src/windows/filter/qcfilter.c:1863-1926 | the 9-byte reply is the first nine bytes of the full one; the statuses differ exactly for an invalid header to which nothing is added |
| IrpQueue.StepKeepsInv | src/windows/filter/qcfilter.c:1438-1457 | every step of dispatch, cancel routine and worker keeps the right to complete a request unique |
| IrpQueue.CompletedAtMostOnce | src/windows/filter/qcfilterioc.c:286-343 | in every run a request is completed at most once, and never while linked, held by the worker or due to be cancelled |
| IrpQueue.CompletedExactlyBy | src/windows/filter/qcfilterioc.c:182-199 | a request is completed by exactly these: its dispatch when it was cancelled before, its cancel routine when that found it, the worker that claimed it unless it is left pending |
| IrpQueue.TokenHandedOn | src/windows/filter/qcfilter.c:857-899 | the right to complete is made once, handed on and never doubled or lost, and given up only when a request is left pending |
| IrpQueue.OrderKept | src/windows/filter/qcfilterioc.c:286-309 | no queued request overtakes another, and the worker takes only one that nothing is ahead of |
| IrpQueue.CancelledForGood | src/windows/filter/qcfilter.c:1438-1457 | only its cancellation marks a request cancelled, for good; once stopped the worker takes nothing more |
| IrpQueue.ClaimAbandonsIffCancelled | src/windows/filter/qcfilterioc.c:309-319 | the worker's exchange abandons the request it unlinked if and only if the cancel routine is not set |
| IrpQueue.AbandonedForever | src/windows/filter/qcfilterioc.c:286-343 | an abandoned request is never completed in any continuation |
| IrpQueue.CancelledRequestAbandoned | src/windows/filter/qcfilter.c:857-899 | a run in which a cancelled request is abandoned |
| IrpQueue.DispatchQueue.IsIrpInQueue | src/windows/filter/qcfilter.c:2339-2380 | the walk finds the request exactly when it is linked |
| IrpQueue.DispatchQueue.InsertTail | src/windows/filter/qcfilter.c:1438-1457 | a request that is enqueued goes behind the others |
| IrpQueue.DispatchQueue.RemoveEntry | src/windows/filter/qcfilter.c:857-899 | unlinking removes that entry and keeps the order of the others |
| Qmi.FillQmux | src/linux/qcom_usbnet/qmi.c:209-233 | in place: the six header bytes, one by one, and no others; -12 for a shorter buffer |
| Qmi.ParseInvertsFill | src/linux/qcom_usbnet/qmi.c:164-233 | the parser accepts a message, with a given client, if and only if it is at least twelve bytes long and starts with the header the filler writes for it, response flag set |
| Qmi.GetTlv | src/linux/qcom_usbnet/qmi.c:259-302 | on any message made of fields: copies out the first one of the type that the loop sees, -ENOMEM exactly when it is larger than the buffer, -ENOMSG exactly when there is none; nothing else is written |
| Qmi.SeenUnlessEmptyLast | src/linux/qcom_usbnet/qmi.c:268-270 | the loop finds the first field of the type if and only if that is not an empty field at the end |
| Qmi.ValidQmiMessage | src/linux/qcom_usbnet/qmi.c:322-344 | the result field is read back: 0, the reported error, or -ENOMSG without a four-byte one |
| Requests.DistinctFieldsFound | src/linux/qcom_usbnet/qmi.c:259-302 | fields are all found where they are if and only if their types are distinct, when the last is not empty |
| Requests.SetDataFormatReq | src/linux/qcom_usbnet/qmi.c:615-704 | for every field value and transaction id: a message whose length field counts the bytes that follow, from which GetTLV recovers nine fields whose bytes, least significant first, are the numbers asked for |
| Requests.SetDataFormatReqSettings | src/linux/qcom_usbnet/qmi.c:570-596 | likewise, one field |
| Requests.SetEventReportReq | src/linux/qcom_usbnet/qmi.c:539-569 | likewise, one field of five bytes |
| Requests.GetPkgSrvcStatusReq | src/linux/qcom_usbnet/qmi.c:722-744 | likewise, no field |
| Requests.GetMeidReq | src/linux/qcom_usbnet/qmi.c:762-784 | likewise, no field |
| Requests.StartNetworkReq | src/linux/qcom_usbnet/qmi.c:1151-1179 | likewise, the profile id |
| Requests.StopNetworkReq | src/linux/qcom_usbnet/qmi.c:1219-1247 | likewise, the connection id |
| Requests.GetRuntimeSettingsReq | src/linux/qcom_usbnet/qmi.c:1280-1304 | likewise, the settings mask |
| Requests.SetIpFamilyPrefReq | src/linux/qcom_usbnet/qmi.c:1626-1653 | likewise, the address family |
| Requests.BindMuxPortReq | src/linux/qcom_usbnet/qmi.c:1655-1695 | likewise, three fields, the last one resting on the zeroed buffer |
| Requests.ReleaseClientIdReq | src/linux/qcom_usbnet/qmi.c:446-475 | likewise, the client id, with the shorter header of the control service |
| Requests.GetClientIdReq | src/linux/qcom_usbnet/qmi.c:398-427 | likewise, the service type |
| Requests.ReadyReq | src/linux/qcom_usbnet/qmi.c:493-521 | likewise, one field |
| Routing.AddressedExactly | src/linux/qcom_usbnet/qmidevice.c:512-513 | a broadcast id matches exactly the ids with the same low byte, any other exactly itself |
| Routing.ReceivedExactly | src/linux/qcom_usbnet/qmidevice.c:475-501 | who a response is for, and its transaction id, byte by byte; anything else is dropped |
| Routing.ReplyIsPopped | src/linux/qcom_usbnet/qmidevice.c:1994-2056 | a reply that carries the SDU transaction id of a request is what its client's pop for that transaction returns, unless an older one is unread |
| Routing.PopTakesFirst | src/linux/qcom_usbnet/qmidevice.c:2025-2045 | a pop returns the first unread message with the transaction id, for 0 the first of all, and keeps the order of the others |
| Routing.ReleaseForgets | src/linux/qcom_usbnet/qmidevice.c:1816-1860 | a released client is gone with what it had not read |
| Routing.DeliverReachesAddressed | src/linux/qcom_usbnet/qmidevice.c:511-551 | every client of a list that a message is for gets it behind what it has, and no other client; stopping at the first match misses nobody |
| Routing.StepKeepsValid | src/linux/qcom_usbnet/qmidevice.c:1674-1697 | client ids stay distinct on every device |
| Routing.StepFollowsHistory | src/linux/qcom_usbnet/qmidevice.c:1994-2056 | after any step on the modem a client's queue is what remains of its own history, and a pop returns the oldest message of the transaction not yet taken |
| Routing.RunFollowsHistory | src/linux/qcom_usbnet/qmidevice.c:433-614 | over every run a client holds, in order of arrival, exactly what was addressed or broadcast to it and not taken; nothing is taken twice |
| Routing.CreateStartsHistory | src/linux/qcom_usbnet/qmidevice.c:1674-1697 | a client that is created starts with nothing, and one that exists is refused |
| Routing.Device.FindClientMem | src/linux/qcom_usbnet/qmidevice.c:1878-1905 | finds the first client with the id |
| Routing.Device.AddToReadMemList | src/linux/qcom_usbnet/qmidevice.c:1926-1970 | in place: the message goes behind the unread ones of that client, or is refused without such a client |
| Routing.Device.PopFromReadMemList | src/linux/qcom_usbnet/qmidevice.c:1994-2056 | in place: takes the oldest unread message of the transaction (any, for 0) from that client's queue and leaves every other queue alone |
| Routing.Device.CreateClient | src/linux/qcom_usbnet/qmidevice.c:1674-1697 | in place: refuses an id that exists, else adds a client behind the others |
| Routing.Device.ReadCallback | src/linux/qcom_usbnet/qmidevice.c:433-614 | in place, byte by byte: with client byte 0xff exactly the clients with the service's low byte gain the message, otherwise exactly the client with that id, on every list; a buffer that is no response changes nothing |

## Left out

- ReceivePath.Device.CopyFromReadMemList: describes a read during which nothing arrives, because a method cannot be cut at the points where the lock is dropped; its sections are `BeginCopy` and `EndCopy`, and `Session` interleaves them with completions.
- SessionRuns.NothingLostOrReordered: says nothing of the bytes once a second copy has started. They can be repeated or lost, and can also come out right, when one read ends and its bytes are replaced before the other gets to them.
- SessionRuns.NoLostWakeUp: once a second copy has started, a run is followed only while the indices describe a buffer; a read that would leave them otherwise ends what is modelled of it.
- SessionRuns.ParkedInOrder: likewise.
- SessionUrbs.UrbsAccounted: likewise.
- Qmap.SplitAggregate: stops where a header or packet would reach beyond the buffer, where the driver reads on; results are stated for whole frames.
- Uplink.RoundTrip: asks that every padded length fit the length field, every frame an empty aggregate, and that allocation succeed; `Qmap.RoundTripIffLengthFits` and `Aggregator.RunAccounts` say what happens otherwise.
- Aggregator.RunInOrder: says nothing of when a carried-over frame leaves, since no timer is armed for it; and the limits are fixed during a run.
- FlushTimer.StepGuards: takes the check and the start in cdc_ncm_tx_timeout_start for one step, and a network device to be there when the tasklet runs; nothing is said of what follows once `stop` is set.
- MuxTable.Filter.SelectAndAddInterfaces: asks for room for the appended descriptors, which the driver does not test; what it does to a shorter buffer is not described.
- IrpQueue.CompletedAtMostOnce: at most once only; balance of the remove lock is not modelled, and the worker's branch for a stop during dequeuing cannot be reached.
- Qmi.GetTlv: speaks of messages that are made of whole fields; other messages are not followed.
- Qmi.ValidQmiMessage: likewise, since it asks GetTlv.
- Requests.BindMuxPortReq: asks for a buffer of 35 bytes, which the driver does not test and its callers provide; so do `StartNetworkReq`, `StopNetworkReq`, `GetRuntimeSettingsReq` and `SetIpFamilyPrefReq` for their sizes.
- Routing.StepKeepsValid: looking for a new client's id and adding the client are one step, although GetClientID takes the lock only for the second.
- Routing.Device.CreateClient: likewise one step.
- Routing.RunFollowsHistory: delivering one message to all lists is one step, although the driver takes the lock anew for each client it serves.
- Routing.Device.ReadCallback: allocation is taken to succeed, and the wake-ups it makes (NotifyAndPopNotifyList, poll) and processIndResponses are not modelled.
- AIO and iter readers, and the loopback test code, of qcom_usb_main.c: a second kind of consumer.
- Suspend, resume, StopRead, teardown and the cancel event of the receive path; failed user copies; a session with no application open.
- Which URB a completion or a parked buffer belongs to is given by its index, where the driver searches its lists by buffer address.
- The response parsers of qmi.c: the same lookups with fewer fields.
- Wake-ups of QMI readers, GetTransactionID, and the rest of GetClientID and ReleaseClientID.
- Freeing, logging, statistics other than those named, sysfs, registry, power management and the USB stacks on either side.
- qcom_serial, MPIP.c, InfParser: thin glue and text scanning.
