// No wake-up is lost in any session that is followed, whoever leaves late and whoever copies
// beside another.
module SessionAlerts {
  import opened Bytes
  import opened Lists
  import opened ReadRing
  import opened Receive
  import opened Session
  import opened SessionBytes

  /** Nobody but the head is in process, and a reader in process has FILL set or copies. */
  ghost predicate Told(d: Dev, readers: map<nat, Phase>) {
    && QueueOk(d)
    && Listed(d, readers)
    && (forall k :: 0 <= k < |d.pool| && d.pool[k].inProcess ==> IsHead(d, k))
    && (forall k :: k in readers && d.pool[k].inProcess ==> d.pool[k].fill || readers[k].Copying?)
  }

  /** And while there is data, the head is in process. */
  ghost predicate Alert(d: Dev, readers: map<nat, Phase>) {
    && Told(d, readers)
    && (d.notify != [] && !d.ring.empty ==> d.pool[d.notify[0]].inProcess)
  }

  lemma InitAlert(s: Sys)
    requires Init(s)
    ensures Alert(s.dev, s.readers)
  {
  }

  /** NotifyUserRequest(NULL) makes up for whatever the head still has to be told. */
  lemma NotifyAlerts(d: Dev, readers: map<nat, Phase>)
    requires Told(d, readers)
    ensures Alert(Notify(d, None), readers)
  {
    FreeSpaceIsCapacityMinusStored(d.ring);
    NotifySpares(d, None);
    var d' := Notify(d, None);
    forall k | k in readers && d'.pool[k].inProcess
      ensures d'.pool[k].fill || readers[k].Copying?
    {
      assert d'.pool[k] == d.pool[k] || d'.pool[k].fill;
    }
  }

  lemma LeaveAlerts(d: Dev, readers: map<nat, Phase>, k: nat)
    requires Told(d, readers) && k in readers
    ensures RemoveNotification(d, k).Shape()
    ensures Alert(Notify(RemoveNotification(d, k), None), readers - {k})
  {
    LeaveShape(d, k);
    LeaveTells(d, readers, k);
    NotifyAlerts(RemoveNotification(d, k), readers - {k});
  }

  lemma LeaveTells(d: Dev, readers: map<nat, Phase>, k: nat)
    requires Told(d, readers) && k in readers && RemoveNotification(d, k).Shape()
    ensures Told(RemoveNotification(d, k), readers - {k})
  {
    WithoutDistinct(d.notify, k);
    var d' := RemoveNotification(d, k);
    assert QueueOk(d');
    assert forall j :: j != k && IsHead(d, j) ==> IsHead(d', j);
  }

  // ------------------------------------------------------------------------
  // Completions

  lemma ArriveAlerts(s: Sys, urb: nat, block: seq<byte>)
    requires Alert(s.dev, s.readers) && Shape(s) && Enabled(s, Arrive(urb, block))
    ensures Alert(Apply(s, Arrive(urb, block)).dev, s.readers)
  {
    var d := s.dev;
    AddRefinesFifo(d.ring, block);
    if d.size > 0 || !d.ring.Add(block).1 {
      ParksQueue(d, urb, block);
      QueueAlerts(d, Apply(s, Arrive(urb, block)).dev, s.readers);
    } else {
      StoredQueue(d, urb, block);
      NotifyAlerts(Stored(d, urb, block), s.readers);
    }
  }

  lemma ParksQueue(d: Dev, urb: nat, block: seq<byte>)
    requires QueueOk(d) && urb in d.flying && 0 < |block| <= |d.ring.buf|
    ensures QueueOk(AddToQueue(d.(payload := d.payload[urb := block], flying := d.flying - {urb}), urb))
  {
    var d1 := d.(payload := d.payload[urb := block], flying := d.flying - {urb});
    assert QueueOk(d1);
    AddToQueueParks(d1, urb);
  }

  lemma StoredQueue(d: Dev, urb: nat, block: seq<byte>)
    requires QueueOk(d) && urb in d.flying && 0 < |block|
    ensures QueueOk(Stored(d, urb, block))
  {
    AddRefinesFifo(d.ring, block);
  }

  // Parking, and moving URBs about, tells nobody anything.
  lemma QueueAlerts(d: Dev, d': Dev, readers: map<nat, Phase>)
    requires Alert(d, readers) && QueueOk(d')
    requires d'.ring.empty == d.ring.empty && d'.pool == d.pool && d'.notify == d.notify
    ensures Alert(d', readers)
  {
  }

  // Nor does one reader going on, unless it stops copying.
  lemma PhaseAlerts(d: Dev, readers: map<nat, Phase>, k: nat, p: Phase)
    requires Alert(d, readers) && k in readers && (readers[k].Copying? ==> p.Copying?)
    ensures Alert(d, readers[k := p])
  {
  }

  // ------------------------------------------------------------------------
  // Readers

  lemma RegisterAlerts(s: Sys, want: nat)
    requires Alert(s.dev, s.readers) && Shape(s) && 0 < want
    ensures Alert(Apply(s, Register(want)).dev, Apply(s, Register(want)).readers)
  {
    if AddToNotifyList(s.dev).Some? {
      var (d1, k) := AddToNotifyList(s.dev).value;
      RegisterListed(s.dev, s.readers, d1, k, want);
      RegisterTells(s.dev, s.readers, d1, k, want);
      if s.dev.notify == [] {
        assert Notify(d1, Some(k)) == Notify(d1, None);
        NotifyAlerts(d1, s.readers[k := Waiting(want)]);
      } else {
        assert d1.notify[0] == s.dev.notify[0] != k;
        assert Notify(d1, Some(k)) == d1;
      }
    }
  }

  lemma RegisterTells(d: Dev, readers: map<nat, Phase>, d': Dev, k: nat, want: nat)
    requires Told(d, readers) && AddToNotifyList(d) == Some((d', k))
    requires Listed(d', readers[k := Waiting(want)])
    ensures Told(d', readers[k := Waiting(want)])
  {
    assert QueueOk(d');
    assert d'.pool[k] == Slot(true, false, d.pool[k].fill);
    assert forall j :: IsHead(d, j) ==> IsHead(d', j);
  }

  lemma EnterAlerts(s: Sys, k: nat)
    requires Alert(s.dev, s.readers) && Shape(s) && Enabled(s, Enter(k))
    ensures Alert(Apply(s, Enter(k)).dev, Apply(s, Enter(k)).readers)
  {
    var p := s.readers[k];
    if p.filled {
      var d := ClearFill(s.dev, k);
      assert QueueOk(d);
      match Begin(d.ring, p.want)
      case None =>
        ClearedLeaves(s.dev, s.readers, k);
      case Some(_) =>
    } else {
      LeaveAlerts(s.dev, s.readers, k);
    }
  }

  // A reader that was woken for nothing: what it was told does not matter once it has left.
  lemma ClearedLeaves(d: Dev, readers: map<nat, Phase>, k: nat)
    requires Told(d, readers) && k in readers
    ensures RemoveNotification(ClearFill(d, k), k).Shape()
    ensures Alert(Notify(RemoveNotification(ClearFill(d, k), k), None), readers - {k})
  {
    var d1 := ClearFill(d, k);
    LeaveShape(d, k);
    LeaveShape(d1, k);
    LeaveTells(d, readers, k);
    var d' := RemoveNotification(d1, k);
    assert d' == RemoveNotification(d, k).(pool := d'.pool);
    assert QueueOk(d');
    NotifyAlerts(d', readers - {k});
  }

  lemma FinishAlerts(s: Sys, k: nat, accepts: set<nat>)
    requires Alert(s.dev, s.readers) && Shape(s) && Enabled(s, Finish(k, accepts))
    requires Retake(s.dev.ring, s.readers[k].copy).Done?
    ensures Alert(Apply(s, Finish(k, accepts)).dev, Apply(s, Finish(k, accepts)).readers)
  {
    var d := Taken(s, k);
    RingIsNotQueue(s.dev, d);
    DrainAlerts(d, accepts, s.readers);
    LeaveAlerts(Drain(d, accepts), s.readers, k);
  }

  lemma {:induction false} DrainAlerts(d: Dev, accepts: set<nat>, readers: map<nat, Phase>)
    requires Alert(d, readers)
    ensures Alert(Drain(d, accepts), readers)
    decreases d.size
  {
    var (d', more) := Pop(d, accepts);
    PopMovesOldest(d, accepts);
    if more {
      PopAlerts(d, accepts, readers);
      DrainAlerts(d', accepts, readers);
    }
  }

  lemma PopAlerts(d: Dev, accepts: set<nat>, readers: map<nat, Phase>)
    requires Alert(d, readers) && Pop(d, accepts).1
    ensures Alert(Pop(d, accepts).0, readers)
  {
    PopMovesOldest(d, accepts);
    PopTells(d, accepts);
    var d' := Pop(d, accepts).0;
    assert d'.pool == d.pool || HeadTold(d, d');
  }

  // The pool changes only in that the head is told.
  ghost predicate HeadTold(d: Dev, d': Dev) {
    && d.notify != [] && d.notify[0] < |d.pool|
    && d'.pool == d.pool[d.notify[0] := d.pool[d.notify[0]].(inProcess := true, fill := true)]
  }

  lemma PopTells(d: Dev, accepts: set<nat>)
    requires QueueOk(d) && Pop(d, accepts).1
    ensures var d' := Pop(d, accepts).0;
      && (d'.pool == d.pool || HeadTold(d, d'))
      && d'.notify == d.notify && (d.notify != [] ==> d.notify[0] < |d'.pool| && d'.pool[d.notify[0]].inProcess)
  {
    var k := FirstBusy(d.nodes);
    var block := d.payload[d.nodes[k].urb];
    AddRefinesFifo(d.ring, block);
    FreeSpaceIsCapacityMinusStored(d.ring.Add(block).0);
  }

  /** Every step keeps the head told; none is excepted. */
  lemma StepKeepsAlert(s: Sys, e: Event)
    requires Alert(s.dev, s.readers) && Shape(s) && Enabled(s, e)
    ensures Alert(Apply(s, e).dev, Apply(s, e).readers)
  {
    match e
    case Arrive(urb, block) => ArriveAlerts(s, urb, block);
    case Register(want) => RegisterAlerts(s, want);
    case Enter(k) => EnterAlerts(s, k);
    case Finish(k, accepts) =>
      if Retake(s.dev.ring, s.readers[k].copy).Done? {
        FinishAlerts(s, k, accepts);
      } else {
        PhaseAlerts(s.dev, s.readers, k, Apply(s, e).readers[k]);
      }
    case Wake(k) => PhaseAlerts(s.dev, s.readers, k, Apply(s, e).readers[k]);
    case TimeOut(k) => PhaseAlerts(s.dev, s.readers, k, Apply(s, e).readers[k]);
    case CopySome(k, _) => PhaseAlerts(s.dev, s.readers, k, Apply(s, e).readers[k]);
    case _ => QueueAlerts(s.dev, Apply(s, e).dev, s.readers);
  }

  // ------------------------------------------------------------------------
  // Parked blocks

  /** Parked blocks never wait for an empty ring. */
  ghost predicate Moving(d: Dev) {
    d.size > 0 ==> !d.ring.empty
  }

  lemma StepKeepsMoving(s: Sys, e: Event)
    requires Alert(s.dev, s.readers) && Moving(s.dev) && Shape(s) && Enabled(s, e)
    ensures Moving(Apply(s, e).dev)
  {
    match e
    case Arrive(urb, block) => ArriveMovesOn(s.dev, urb, block);
    case Finish(k, accepts) =>
      if Retake(s.dev.ring, s.readers[k].copy).Done? {
        FinishMoves(Taken(s, k), s.dev, accepts, k);
      }
    case Enter(k) =>
      LeavesRing(s.dev, k);
      LeavesRing(ClearFill(s.dev, k), k);
    case _ =>
  }

  lemma ArriveMovesOn(d: Dev, urb: nat, block: seq<byte>)
    requires QueueOk(d) && Moving(d) && urb in d.flying && 0 < |block| <= |d.ring.buf|
    ensures Moving(BlkCallback(d, urb, block))
  {
    AddRefinesFifo(d.ring, block);
    FreeSpaceIsCapacityMinusStored(d.ring);
  }

  lemma FinishMoves(d: Dev, was: Dev, accepts: set<nat>, k: nat)
    requires QueueOk(was) && d == was.(ring := d.ring) && d.ring.Valid() && |d.ring.buf| == |was.ring.buf|
    requires k < |d.pool|
    ensures Drain(d, accepts).Shape() && k < |Drain(d, accepts).pool|
    ensures RemoveNotification(Drain(d, accepts), k).Shape()
    ensures Moving(Notify(RemoveNotification(Drain(d, accepts), k), None))
  {
    RingIsNotQueue(was, d);
    DrainMovesWhatFits(d, accepts);
    FreeSpaceIsCapacityMinusStored(Drain(d, accepts).ring);
    LeavesRing(Drain(d, accepts), k);
  }

  lemma LeavesRing(d: Dev, k: nat)
    requires d.Shape() && k < |d.pool|
    ensures RemoveNotification(d, k).Shape()
    ensures var d' := Notify(RemoveNotification(d, k), None); d'.ring == d.ring && d'.size == d.size
  {
    LeaveShape(d, k);
  }
}
