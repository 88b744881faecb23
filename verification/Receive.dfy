// The locked sections of the QDSS/DIAG receive path
// (src/linux/qcom_usb/qcom_usb_main.c): parking URBs that do not fit, draining
// them again, and the list that decides which waiting reader is woken.
module Receive {
  import opened Bytes
  import opened Lists
  import opened ReadRing

  // A node of mBulkUrbBuffList; busy while its mBulk_in_buffer is not NULL.
  datatype Node = Idle | Busy(urb: nat)

  // An entry of mRxNotifyPool: mpData != NULL, mInProcess, and whether
  // QTI_RX_EVT_FILL is set in its event.
  datatype Slot = Slot(used: bool, inProcess: bool, fill: bool)

  /** The part of the device that mReadMemLock guards, and where each URB is: with
      the USB core (flying), or about to go back to it (returning). */
  datatype Dev = Dev(
    ring: Ring,
    nodes: seq<Node>,
    size: nat,                 // mBulkUrbBuffListSize
    submitted: seq<bool>,      // BULK_URB_SUBMITTED in mUrbStatus
    payload: seq<seq<byte>>,   // transfer buffer and actual_length of each URB
    flying: set<nat>,
    returning: set<nat>,
    pool: seq<Slot>,
    notify: seq<nat>           // mpReadNotifyList, as indices into the pool
  ) {
    // Indices stay in range in every run.
    ghost predicate Shape() {
      && |submitted| == |payload| == |nodes|
      && (forall i :: 0 <= i < |nodes| && nodes[i].Busy? ==> nodes[i].urb < |nodes| && 0 < |payload[nodes[i].urb]|)
      && (forall u :: u in flying || u in returning ==> u < |nodes|)
      && (forall i :: 0 <= i < |notify| ==> notify[i] < |pool|)
      && ring.Valid()
    }
  }

  // ------------------------------------------------------------------------
  // Parked URBs

  function FirstIdle(nodes: seq<Node>): (k: nat)
    ensures k <= |nodes|
    ensures k < |nodes| ==> nodes[k].Idle?
    ensures forall i :: 0 <= i < k ==> nodes[i].Busy?
  {
    if nodes == [] || nodes[0].Idle? then 0 else 1 + FirstIdle(nodes[1..])
  }

  function FirstBusy(nodes: seq<Node>): (k: nat)
    ensures k <= |nodes|
    ensures k < |nodes| ==> nodes[k].Busy?
    ensures forall i :: 0 <= i < k ==> nodes[i].Idle?
  {
    if nodes == [] || nodes[0].Busy? then 0 else 1 + FirstBusy(nodes[1..])
  }

  // AddToQueue: the first idle node takes the URB; with no idle node it is lost.
  function AddToQueue(d: Dev, urb: nat): Dev
    requires urb < |d.submitted|
  {
    var k := FirstIdle(d.nodes);
    if k == |d.nodes| then d
    else d.(nodes := d.nodes[k := Busy(urb)], submitted := d.submitted[urb := false], size := d.size + 1)
  }

  // list_rotate_left.
  function RotateLeft(nodes: seq<Node>): (r: seq<Node>)
    ensures |r| == |nodes|
  {
    if nodes == [] then [] else nodes[1..] + [nodes[0]]
  }

  /** PopFromQueueAndSubmit, with the URBs that usb_submit_urb would accept. */
  function Pop(d: Dev, accepts: set<nat>): (Dev, bool)
    requires d.Shape()
  {
    if d.size == 0 then (d, false)
    else
      var k := FirstBusy(d.nodes);
      if k == |d.nodes| then (d, false)
      else if d.ring.FreeSpace() < |d.payload[d.nodes[k].urb]| then (d, false)
      else PopNode(d, k, accepts)
  }

  // Once a node is chosen and its block fits.
  function PopNode(d: Dev, k: nat, accepts: set<nat>): (Dev, bool)
    requires d.Shape() && k < |d.nodes| && d.nodes[k].Busy? && 0 < d.size
  {
    var urb := d.nodes[k].urb;
    var d1 := d.(nodes := RotateLeft(d.nodes[k := Idle]), size := d.size - 1);
    AddRefinesFifo(d.ring, d.payload[urb]);
    var (ring, taken) := d.ring.Add(d.payload[urb]);
    if !taken then (AddToQueue(d1, urb), false)
    else (Submit(Notify(d1.(ring := ring), None), urb, accepts), true)
  }

  // The end of PopFromQueueAndSubmit: hand the URB back unless it is there already.
  function Submit(d: Dev, urb: nat, accepts: set<nat>): Dev
    requires urb < |d.submitted|
  {
    if d.submitted[urb] then d
    else if urb in accepts then d.(submitted := d.submitted[urb := true], flying := d.flying + {urb})
    else d
  }

  // ------------------------------------------------------------------------
  // The notify list

  /** NotifyUserRequest: wake the reader at the head, once, if there is data. */
  function Notify(d: Dev, evt: Option<nat>): Dev
    requires d.ring.Valid()
    requires forall i :: 0 <= i < |d.notify| ==> d.notify[i] < |d.pool|
  {
    if d.notify == [] then d
    else if |d.ring.buf| - d.ring.FreeSpace() == 0 then d
    else
      var head := d.notify[0];
      if (evt.None? || evt.value == head) && !d.pool[head].inProcess
      then d.(pool := d.pool[head := d.pool[head].(inProcess := true, fill := true)])
      else d
  }

  function FirstFree(pool: seq<Slot>): (k: nat)
    ensures k <= |pool|
    ensures k < |pool| ==> !pool[k].used
    ensures forall i :: 0 <= i < k ==> pool[i].used
  {
    if pool == [] || !pool[0].used then 0 else 1 + FirstFree(pool[1..])
  }

  /** AddToNotifyList with AllocateRxNotifyItem: the event bits of the slot are
      left as the last user left them. */
  function AddToNotifyList(d: Dev): Option<(Dev, nat)> {
    var k := FirstFree(d.pool);
    if k == |d.pool| then None
    else Some((d.(pool := d.pool[k := Slot(true, false, d.pool[k].fill)], notify := d.notify + [k]), k))
  }

  // RemoveNotification.
  function RemoveNotification(d: Dev, slot: nat): Dev
    requires slot < |d.pool|
  {
    if slot in d.notify
    then d.(notify := Without(d.notify, slot), pool := d.pool[slot := Slot(false, false, d.pool[slot].fill)])
    else d
  }

  // qti_clear_event(QTI_RX_EVT_FILL).
  function ClearFill(d: Dev, slot: nat): Dev
    requires slot < |d.pool|
  {
    d.(pool := d.pool[slot := d.pool[slot].(fill := false)])
  }

  // ------------------------------------------------------------------------
  // Completions

  /** BlkCallback for a completion that carries data, up to the release of the lock. */
  function BlkCallback(d: Dev, urb: nat, block: seq<byte>): Dev
    requires d.Shape() && urb < |d.nodes| && 0 < |block|
  {
    AddRefinesFifo(d.ring, block);
    var d1 := d.(payload := d.payload[urb := block], flying := d.flying - {urb});
    if d1.size > 0 || !d1.ring.Add(block).1 then
      AddToQueue(d1, urb)
    else
      Notify(d1.(ring := d1.ring.Add(block).0, returning := d1.returning + {urb}), None)
  }

  // ------------------------------------------------------------------------
  // What holds of the parked URBs

  /** Busy nodes are a prefix, in arrival order, each naming another URB, and none
      of those URBs is with the USB core. */
  ghost predicate QueueOk(d: Dev) {
    && d.Shape()
    && d.size <= |d.nodes|
    && d.flying !! d.returning
    && (forall i :: 0 <= i < |d.nodes| ==> (d.nodes[i].Busy? <==> i < d.size))
    && (forall i, j :: 0 <= i < j < d.size ==> d.nodes[i].urb != d.nodes[j].urb)
    && (forall i :: 0 <= i < d.size ==>
          && d.nodes[i].urb !in d.flying
          && d.nodes[i].urb !in d.returning
          && !d.submitted[d.nodes[i].urb]
          && 0 < |d.payload[d.nodes[i].urb]| <= |d.ring.buf|)
  }

  // The parked blocks, in queue order, and their bytes.
  ghost function Blocks(d: Dev): (blocks: seq<seq<byte>>)
    requires QueueOk(d)
    ensures |blocks| == d.size && forall i :: 0 <= i < d.size ==> blocks[i] == d.payload[d.nodes[i].urb]
  {
    seq(d.size, i requires 0 <= i < d.size => d.payload[d.nodes[i].urb])
  }

  ghost function Parked(d: Dev): seq<byte>
    requires QueueOk(d)
  {
    Concat(Blocks(d))
  }

  /** While some URB is with the USB core, an idle node is left for it. */
  lemma IdleNodeLeft(d: Dev, urb: nat)
    requires QueueOk(d) && urb < |d.nodes|
    requires forall i :: 0 <= i < d.size ==> d.nodes[i].urb != urb
    ensures d.size < |d.nodes| && FirstIdle(d.nodes) == d.size
  {
    var names := seq(d.size, i requires 0 <= i < d.size => d.nodes[i].urb);
    DistinctBounded(names + [urb], |d.nodes|);
    assert d.nodes[d.size].Idle?;
  }

  lemma {:induction false} DistinctBounded(names: seq<nat>, n: nat)
    requires forall i, j :: 0 <= i < j < |names| ==> names[i] != names[j]
    requires forall i :: 0 <= i < |names| ==> names[i] < n
    ensures |names| <= n
  {
    if names != [] {
      assert names[0] < n;
      if k :| 0 <= k < |names| && names[k] == n - 1 {
        DistinctBounded(names[..k] + names[k + 1..], n - 1);
      } else {
        DistinctBounded(names, n - 1);
      }
    }
  }

  /** Parking keeps the structure and puts the block behind everything parked. */
  lemma AddToQueueParks(d: Dev, urb: nat)
    requires QueueOk(d) && urb < |d.nodes|
    requires forall i :: 0 <= i < d.size ==> d.nodes[i].urb != urb
    requires urb !in d.flying && urb !in d.returning && 0 < |d.payload[urb]| <= |d.ring.buf|
    ensures var d' := AddToQueue(d, urb);
      QueueOk(d') && Parked(d') == Parked(d) + d.payload[urb] && d'.size == d.size + 1
  {
    IdleNodeLeft(d, urb);
    var d' := AddToQueue(d, urb);
    assert d'.nodes == d.nodes[d.size := Busy(urb)];
    assert QueueOk(d');
    assert Blocks(d') == Blocks(d) + [d.payload[urb]];
    ConcatOne(Blocks(d), d.payload[urb]);
  }

  ghost predicate IsHead(d: Dev, k: nat) {
    d.notify != [] && k == d.notify[0]
  }

  ghost predicate HeadServed(d: Dev) {
    && d.notify != []
    && d.notify[0] < |d.pool|
    && d.pool[d.notify[0]].inProcess
  }

  /** Waking, exactly: with bytes stored, the reader at the head, or only the one asked for if
      it is at the head, is put in process and sent FILL unless it is in process. */
  lemma NotifyExactly(d: Dev, evt: Option<nat>)
    requires d.Shape()
    ensures var serves := d.notify != [] && d.ring.Contents() != [] && !d.pool[d.notify[0]].inProcess
        && (evt == None || evt == Some(d.notify[0]));
      Notify(d, evt) ==
        if serves then d.(pool := d.pool[d.notify[0] := Slot(d.pool[d.notify[0]].used, true, true)]) else d
  {
    FreeSpaceIsCapacityMinusStored(d.ring);
  }

  // Which slots are used stays, and a reader that is being served is not disturbed.
  ghost predicate SlotsKept(d: Dev, d': Dev) {
    && d'.notify == d.notify
    && |d'.pool| == |d.pool|
    && (forall k :: 0 <= k < |d.pool| ==> d'.pool[k].used == d.pool[k].used)
    && (HeadServed(d) ==> d'.pool == d.pool)
  }

  /** One pop: either nothing moves, because the queue is empty or its head does
      not fit, or the oldest parked block moves into the ring. The re-park and
      "anomaly" branches are never taken. */
  lemma PopMovesOldest(d: Dev, accepts: set<nat>)
    requires QueueOk(d)
    ensures var (d', more) := Pop(d, accepts);
      && QueueOk(d')
      && |d'.ring.buf| == |d.ring.buf|
      && d'.ring.Contents() + Parked(d') == d.ring.Contents() + Parked(d)
      && SlotsKept(d, d') && |d'.nodes| == |d.nodes|
      && (more ==> d'.size == d.size - 1)
      && (!more ==> d' == d && (d.size == 0 || d.ring.FreeSpace() < |d.payload[d.nodes[0].urb]|))
  {
    if d.size > 0 {
      assert d.nodes[0].Busy? && FirstBusy(d.nodes) == 0;
      if |d.payload[d.nodes[0].urb]| <= d.ring.FreeSpace() {
        PopTakes(d, accepts);
      }
    }
  }

  lemma PopTakes(d: Dev, accepts: set<nat>)
    requires QueueOk(d) && d.size > 0 && FirstBusy(d.nodes) == 0
    requires |d.payload[d.nodes[0].urb]| <= d.ring.FreeSpace()
    ensures var (d', more) := Pop(d, accepts);
      && more
      && QueueOk(d')
      && |d'.ring.buf| == |d.ring.buf|
      && d'.ring.Contents() + Parked(d') == d.ring.Contents() + Parked(d)
      && SlotsKept(d, d') && |d'.nodes| == |d.nodes|
      && d'.size == d.size - 1
  {
    PopTakesHead(d, accepts);
    PopKeepsQueue(d, accepts);
    var d' := Pop(d, accepts).0;
    var block := d.payload[d.nodes[0].urb];
    assert Blocks(d)[1..] == Blocks(d');
    Associate(d.ring.Contents(), block, Parked(d'));
  }

  // The same step, field by field.
  lemma PopTakesHead(d: Dev, accepts: set<nat>)
    requires QueueOk(d) && d.size > 0 && FirstBusy(d.nodes) == 0
    requires |d.payload[d.nodes[0].urb]| <= d.ring.FreeSpace()
    ensures var urb := d.nodes[0].urb;
      var (d', more) := Pop(d, accepts);
      && more
      && d'.ring.Valid()
      && d'.ring.Contents() == d.ring.Contents() + d.payload[urb]
      && d'.nodes == d.nodes[1..] + [Idle]
      && d' == d.(ring := d'.ring, nodes := d'.nodes, size := d.size - 1, submitted := d'.submitted, flying := d'.flying, pool := d'.pool)
      && SlotsKept(d, d')
      && |d'.ring.buf| == |d.ring.buf|
      && d'.submitted == (if urb in accepts then d.submitted[urb := true] else d.submitted)
      && d'.flying == (if urb in accepts then d.flying + {urb} else d.flying)
  {
    var urb := d.nodes[0].urb;
    AddRefinesFifo(d.ring, d.payload[urb]);
    assert RotateLeft(d.nodes[0 := Idle]) == d.nodes[1..] + [Idle];
    var d1 := d.(nodes := d.nodes[1..] + [Idle], size := d.size - 1, ring := d.ring.Add(d.payload[urb]).0);
    assert Pop(d, accepts) == (Submit(Notify(d1, None), urb, accepts), true);
  }

  /** A pop that moves a block hands its URB back to the core, if the core accepts it, and
      marks it submitted; a refused one is left with neither. */
  lemma PopResubmits(d: Dev, accepts: set<nat>)
    requires QueueOk(d) && Pop(d, accepts).1
    ensures d.size > 0
    ensures var u, d' := d.nodes[0].urb, Pop(d, accepts).0;
      && (u in accepts ==> d'.flying == d.flying + {u} && d'.submitted == d.submitted[u := true])
      && (u !in accepts ==> d'.flying == d.flying && d'.submitted == d.submitted && !d'.submitted[u])
      && d'.returning == d.returning
      && d'.nodes == d.nodes[1..] + [Idle]
  {
    PopMovesOldest(d, accepts);
    assert d.nodes[0].Busy? && FirstBusy(d.nodes) == 0;
    PopTakesHead(d, accepts);
  }

  // The URBs that are parked.
  ghost function ParkedUrbs(d: Dev): set<nat> {
    BusyUrbs(d.nodes, d.size)
  }

  ghost function BusyUrbs(nodes: seq<Node>, size: nat): set<nat> {
    set i | 0 <= i < size && i < |nodes| && nodes[i].Busy? :: nodes[i].urb
  }

  /** Over a whole drain: of the URBs that leave the queue, exactly those the core accepts
      are with it again, and marked so; nothing else moves. */
  lemma {:induction false} DrainResubmits(d: Dev, accepts: set<nat>)
    requires QueueOk(d)
    ensures QueueOk(Drain(d, accepts))
    ensures var d' := Drain(d, accepts);
      var left := ParkedUrbs(d) - ParkedUrbs(d');
      && ParkedUrbs(d') <= ParkedUrbs(d)
      && d'.flying == d.flying + left * accepts
      && d'.returning == d.returning
    decreases d.size
  {
    var (d', more) := Pop(d, accepts);
    PopMovesOldest(d, accepts);
    if more {
      PopResubmits(d, accepts);
      PopUnparks(d, d');
      DrainResubmits(d', accepts);
      OneMoreLeft(d.nodes[0].urb, ParkedUrbs(d), ParkedUrbs(d'), ParkedUrbs(Drain(d', accepts)), accepts, d.flying, d'.flying);
    }
  }

  lemma {:induction false} DrainMarks(d: Dev, accepts: set<nat>)
    requires QueueOk(d)
    ensures QueueOk(Drain(d, accepts)) && ParkedUrbs(Drain(d, accepts)) <= ParkedUrbs(d)
    ensures var d' := Drain(d, accepts);
      && |d'.submitted| == |d.submitted|
      && forall u :: 0 <= u < |d.submitted| ==>
           (d'.submitted[u] <==>
              if u in ParkedUrbs(d) && u !in ParkedUrbs(d') then u in accepts else d.submitted[u])
    decreases d.size
  {
    var (d', more) := Pop(d, accepts);
    PopMovesOldest(d, accepts);
    if more {
      PopResubmits(d, accepts);
      PopUnparks(d, d');
      DrainMarks(d', accepts);
    }
  }

  // u leaves first, then the rest.
  lemma OneMoreLeft(u: nat, p: set<nat>, p1: set<nat>, p2: set<nat>, accepts: set<nat>, f: set<nat>, f1: set<nat>)
    requires u in p && p1 == p - {u} && p2 <= p1
    requires f1 == if u in accepts then f + {u} else f
    ensures p2 <= p && p - p2 == {u} + (p1 - p2)
    ensures f1 + (p1 - p2) * accepts == f + (p - p2) * accepts
  {
  }

  lemma PopUnparks(d: Dev, d': Dev)
    requires QueueOk(d) && QueueOk(d') && d.size > 0 && d'.size == d.size - 1 && d'.nodes == d.nodes[1..] + [Idle]
    ensures ParkedUrbs(d') == ParkedUrbs(d) - {d.nodes[0].urb} && d.nodes[0].urb in ParkedUrbs(d)
  {
    assert forall i :: 0 <= i < d'.size ==> d'.nodes[i] == d.nodes[i + 1];
    forall u | u in ParkedUrbs(d) - {d.nodes[0].urb}
      ensures u in ParkedUrbs(d')
    {
      var i :| 0 <= i < d.size && d.nodes[i].urb == u;
      assert d'.nodes[i - 1].urb == u;
    }
  }

  lemma PopKeepsQueue(d: Dev, accepts: set<nat>)
    requires QueueOk(d) && d.size > 0 && FirstBusy(d.nodes) == 0
    requires |d.payload[d.nodes[0].urb]| <= d.ring.FreeSpace()
    ensures QueueOk(Pop(d, accepts).0)
  {
    PopTakesHead(d, accepts);
    ShiftKeepsQueue(d, Pop(d, accepts).0);
  }

  // The head is gone and its URB may be with the USB core again.
  lemma ShiftKeepsQueue(d: Dev, d': Dev)
    requires QueueOk(d) && d.size > 0 && d'.ring.Valid() && |d'.ring.buf| == |d.ring.buf|
    requires d'.nodes == d.nodes[1..] + [Idle] && d'.size == d.size - 1
    requires d'.payload == d.payload && d'.returning == d.returning && |d'.pool| == |d.pool| && d'.notify == d.notify
    requires d'.submitted == d.submitted[d.nodes[0].urb := true] || d'.submitted == d.submitted
    requires d'.flying == d.flying + {d.nodes[0].urb} || d'.flying == d.flying
    ensures QueueOk(d')
  {
    assert forall i :: 0 <= i < |d'.nodes| ==> d'.nodes[i] == if i < |d.nodes| - 1 then d.nodes[i + 1] else Idle;
    assert d.nodes[0].urb !in d.returning;
  }

  /** The drain loop of CopyFromReadMemList. Its measure is the queue length. */
  function Drain(d: Dev, accepts: set<nat>): Dev
    requires d.Shape()
    decreases d.size
  {
    var (d', more) := Pop(d, accepts);
    PopShape(d, accepts);
    if more then Drain(d', accepts) else d'
  }

  lemma DrainUnfolds(d: Dev, accepts: set<nat>)
    requires d.Shape()
    ensures var (d', more) := Pop(d, accepts);
      d'.Shape() && (more ==> d'.size < d.size) && Drain(d, accepts) == if more then Drain(d', accepts) else d'
  {
    PopShape(d, accepts);
  }

  lemma PopShape(d: Dev, accepts: set<nat>)
    requires d.Shape()
    ensures var (d', more) := Pop(d, accepts);
      d'.Shape() && (more ==> d'.size == d.size - 1) && |d'.nodes| == |d.nodes| && |d'.pool| == |d.pool|
  {
    var k := FirstBusy(d.nodes);
    if d.size > 0 && k < |d.nodes| && |d.payload[d.nodes[k].urb]| <= d.ring.FreeSpace() {
      PopNodeShape(d, k, accepts);
    }
  }

  lemma PopNodeShape(d: Dev, k: nat, accepts: set<nat>)
    requires d.Shape() && k < |d.nodes| && d.nodes[k].Busy? && 0 < d.size
    requires |d.payload[d.nodes[k].urb]| <= d.ring.FreeSpace()
    ensures var (d', more) := PopNode(d, k, accepts);
      more && d'.Shape() && d'.size == d.size - 1 && |d'.nodes| == |d.nodes| && |d'.pool| == |d.pool|
  {
    var urb := d.nodes[k].urb;
    AddRefinesFifo(d.ring, d.payload[urb]);
    RotateShape(d, k);
    var d1 := d.(nodes := RotateLeft(d.nodes[k := Idle]), size := d.size - 1, ring := d.ring.Add(d.payload[urb]).0);
    assert d1.Shape();
    NotifyShape(d1);
    SubmitShape(Notify(d1, None), urb, accepts);
  }

  lemma NotifyShape(d: Dev)
    requires d.Shape()
    ensures Notify(d, None).Shape() && Notify(d, None) == d.(pool := Notify(d, None).pool)
    ensures |Notify(d, None).pool| == |d.pool|
  {
  }

  lemma SubmitShape(d: Dev, urb: nat, accepts: set<nat>)
    requires d.Shape() && urb < |d.submitted|
    ensures var d' := Submit(d, urb, accepts);
      d'.Shape() && d' == d.(submitted := d'.submitted, flying := d'.flying)
  {
  }

  lemma RotateShape(d: Dev, k: nat)
    requires d.Shape() && k < |d.nodes|
    ensures d.(nodes := RotateLeft(d.nodes[k := Idle])).Shape()
  {
    var was, now := d.nodes[k := Idle], RotateLeft(d.nodes[k := Idle]);
    assert forall i :: 0 <= i < |now| - 1 ==> now[i] == was[i + 1];
    assert now[|now| - 1] == was[0];
    assert forall i :: 0 <= i < |was| ==> was[i] == if i == k then Idle else d.nodes[i];
  }

  /** Draining loses and reorders nothing, and stops only with the queue empty or
      its head larger than the free space. */
  lemma {:induction false} DrainMovesWhatFits(d: Dev, accepts: set<nat>)
    requires QueueOk(d)
    ensures var d' := Drain(d, accepts);
      && QueueOk(d')
      && |d'.ring.buf| == |d.ring.buf|
      && d'.ring.Contents() + Parked(d') == d.ring.Contents() + Parked(d)
      && SlotsKept(d, d') && |d'.nodes| == |d.nodes|
      && (d'.size == 0 || d'.ring.FreeSpace() < |d'.payload[d'.nodes[0].urb]|)
    decreases d.size
  {
    PopMovesOldest(d, accepts);
    var (d', more) := Pop(d, accepts);
    if more {
      DrainMovesWhatFits(d', accepts);
    }
  }
}
