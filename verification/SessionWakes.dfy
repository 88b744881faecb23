// Who is woken in a session: the reader at the head of the notify list, exactly
// while there is data, as long as nobody gives up late.
module SessionWakes {
  import opened Bytes
  import opened Lists
  import opened ReadRing
  import opened Receive
  import opened Session
  import opened SessionBytes

  // ------------------------------------------------------------------------
  // The invariant

  predicate Quiet(p: Slot) {
    !p.inProcess && !p.fill
  }

  // Only the head is ever in process, or has FILL set; the pool is clean otherwise.
  ghost predicate HeadOnly(d: Dev)
    requires d.Shape()
  {
    && (forall k :: 0 <= k < |d.pool| && !IsHead(d, k) ==> Quiet(d.pool[k]))
    && (d.notify != [] ==>
          && (d.pool[d.notify[0]].inProcess ==> !d.ring.empty)
          && (d.pool[d.notify[0]].fill ==> d.pool[d.notify[0]].inProcess))
  }

  /** What a reader's phase says about its slot. */
  ghost predicate WakeOk(d: Dev, k: nat, p: Phase)
    requires k < |d.pool|
  {
    match p
    case Waiting(_) => d.pool[k].inProcess ==> d.pool[k].fill
    case Woken(_, filled) =>
      && (filled ==> IsHead(d, k) && d.pool[k].fill)
      && (d.pool[k].inProcess ==> d.pool[k].fill)
    case Copying(_, _, _, _) => IsHead(d, k) && d.pool[k].inProcess && !d.pool[k].fill
  }

  ghost predicate WakesOk(d: Dev, readers: map<nat, Phase>) {
    forall k :: k in readers ==> k < |d.pool| && WakeOk(d, k, readers[k])
  }

  /** The head is in process exactly while there is data. */
  ghost predicate Served(d: Dev, readers: map<nat, Phase>) {
    && d.Shape()
    && HeadOnly(d)
    && WakesOk(d, readers)
    && (d.notify != [] ==> (d.pool[d.notify[0]].inProcess <==> !d.ring.empty))
  }

  ghost predicate Inv(s: Sys) {
    Steady(s) && Served(s.dev, s.readers)
  }

  lemma InitInv(s: Sys)
    requires Init(s)
    ensures Inv(s)
  {
    InitSteady(s);
  }

  /** Only the head copies, so a woken reader never finds another one copying. */
  lemma NoSecondCopy(s: Sys, e: Event)
    requires Inv(s)
    ensures !SecondCopy(s, e)
  {
    if e.Enter? && e.slot in s.readers {
      assert WakeOk(s.dev, e.slot, s.readers[e.slot]);
      forall j | j in s.readers
        ensures s.readers[e.slot].Woken? && s.readers[e.slot].filled ==> !s.readers[j].Copying?
      {
        assert WakeOk(s.dev, j, s.readers[j]);
      }
    }
  }

  // ------------------------------------------------------------------------
  // Waking and leaving

  /** NotifyUserRequest(NULL) serves the head exactly when there is data. */
  lemma NotifyServesHead(d: Dev, readers: map<nat, Phase>)
    requires d.Shape() && HeadOnly(d) && WakesOk(d, readers)
    ensures Served(Notify(d, None), readers)
  {
    FreeSpaceIsCapacityMinusStored(d.ring);
    var d' := Notify(d, None);
    forall k | k in readers
      ensures k < |d'.pool| && WakeOk(d', k, readers[k])
    {
      assert WakeOk(d, k, readers[k]);
    }
  }

  /** A reader that leaves a slot without FILL set leaves the rest in order. */
  lemma RemoveKeepsOrder(d: Dev, readers: map<nat, Phase>, k: nat)
    requires Listed(d, readers) && k in readers && !d.pool[k].fill
    requires forall j :: 0 <= j < |d.pool| && !IsHead(d, j) ==> Quiet(d.pool[j])
    requires !IsHead(d, k) ==> HeadOnly(d)
    requires forall j :: j in readers && j != k ==> WakeOk(d, j, readers[j])
    ensures var d' := RemoveNotification(d, k);
      d'.Shape() && HeadOnly(d') && WakesOk(d', readers - {k})
  {
    LeaveShape(d, k);
    WithoutDistinct(d.notify, k);
    var d' := RemoveNotification(d, k);
    assert forall j :: j != k && IsHead(d, j) ==> IsHead(d', j);
    forall j | j in readers - {k}
      ensures j < |d'.pool| && WakeOk(d', j, (readers - {k})[j])
    {
      assert WakeOk(d, j, readers[j]);
    }
  }

  // A slot that is left with FILL set is not clean.
  lemma LeaveServes(d: Dev, readers: map<nat, Phase>, k: nat)
    requires Listed(d, readers) && k in readers && RemoveNotification(d, k).Shape()
    requires forall j :: 0 <= j < |d.pool| && !IsHead(d, j) ==> Quiet(d.pool[j])
    requires !IsHead(d, k) ==> HeadOnly(d)
    requires forall j :: j in readers && j != k ==> WakeOk(d, j, readers[j])
    ensures Served(Notify(RemoveNotification(d, k), None), readers - {k}) <==> !d.pool[k].fill
  {
    var d1 := RemoveNotification(d, k);
    if d.pool[k].fill {
      WithoutDistinct(d.notify, k);
      assert !IsHead(d1, k) && !Quiet(Notify(d1, None).pool[k]);
    } else {
      RemoveKeepsOrder(d, readers, k);
      NotifyServesHead(d1, readers - {k});
    }
  }

  // ------------------------------------------------------------------------
  // Every step

  // A step that leaves ring, pool and notify list alone serves whom it served.
  lemma SeesOnly(d: Dev, d': Dev, readers: map<nat, Phase>)
    requires Served(d, readers) && d'.Shape()
    requires d'.ring.empty == d.ring.empty && d'.pool == d.pool && d'.notify == d.notify
    ensures Served(d', readers)
  {
    forall k | k in readers
      ensures k < |d'.pool| && WakeOk(d', k, readers[k])
    {
      assert WakeOk(d, k, readers[k]);
    }
  }

  lemma ArriveServes(s: Sys, urb: nat, block: seq<byte>)
    requires Inv(s) && Enabled(s, Arrive(urb, block)) && Steady(Apply(s, Arrive(urb, block)))
    ensures Served(Apply(s, Arrive(urb, block)).dev, s.readers)
  {
    var d := s.dev;
    AddRefinesFifo(d.ring, block);
    FreeSpaceIsCapacityMinusStored(d.ring.Add(block).0);
    if d.size > 0 || !d.ring.Add(block).1 {
      SeesOnly(d, Apply(s, Arrive(urb, block)).dev, s.readers);
    } else {
      StoredShape(d, urb, block);
      StoredServes(d, Stored(d, urb, block), s.readers);
    }
  }

  lemma StoredShape(d: Dev, urb: nat, block: seq<byte>)
    requires d.Shape() && urb < |d.nodes| && 0 < |block|
    ensures Stored(d, urb, block).Shape()
  {
    AddRefinesFifo(d.ring, block);
  }

  lemma StoredServes(d: Dev, d': Dev, readers: map<nat, Phase>)
    requires Served(d, readers) && d'.Shape() && !d'.ring.empty
    requires d'.pool == d.pool && d'.notify == d.notify
    ensures Served(Notify(d', None), readers)
  {
    forall k | k in readers
      ensures k < |d'.pool| && WakeOk(d', k, readers[k])
    {
      assert WakeOk(d, k, readers[k]);
    }
    NotifyServesHead(d', readers);
  }

  lemma RegisterServes(s: Sys, want: nat)
    requires Inv(s) && 0 < want
    ensures Served(Apply(s, Register(want)).dev, Apply(s, Register(want)).readers)
  {
    if AddToNotifyList(s.dev).Some? {
      var (d1, k) := AddToNotifyList(s.dev).value;
      assert k !in s.dev.notify && Quiet(s.dev.pool[k]);
      RegisterHead(s.dev, d1, k);
      RegisterWakes(s.dev, Notify(d1, Some(k)), k, s.readers, want);
    }
  }

  // The new registration goes behind the others; alone, it is served at once if there is data.
  lemma RegisterHead(d: Dev, d1: Dev, k: nat)
    requires d.Shape() && HeadOnly(d) && k < |d.pool| && k !in d.notify && Quiet(d.pool[k])
    requires d.notify != [] ==> (d.pool[d.notify[0]].inProcess <==> !d.ring.empty)
    requires d1 == d.(pool := d.pool[k := Slot(true, false, false)], notify := d.notify + [k])
    ensures d1.Shape()
    ensures var d' := Notify(d1, Some(k));
      && d'.Shape() && HeadOnly(d') && d' == d1.(pool := d'.pool) && |d'.pool| == |d.pool|
      && (d'.pool[d'.notify[0]].inProcess <==> !d'.ring.empty)
      && (forall j :: 0 <= j < |d.pool| && j != k ==> d'.pool[j] == d.pool[j])
      && (d'.pool[k].inProcess ==> d'.pool[k].fill)
  {
    FreeSpaceIsCapacityMinusStored(d.ring);
    var d' := Notify(d1, Some(k));
    if d.notify == [] {
      assert d1.notify == [k];
      assert d' == if d.ring.empty then d1 else d1.(pool := d1.pool[k := Slot(true, true, true)]);
    } else {
      assert d1.notify[0] == d.notify[0] != k;
      assert d' == d1;
    }
  }

  lemma RegisterWakes(d: Dev, d': Dev, k: nat, readers: map<nat, Phase>, want: nat)
    requires WakesOk(d, readers) && k !in d.notify && k < |d'.pool| == |d.pool|
    requires d'.notify == d.notify + [k]
    requires forall j :: 0 <= j < |d.pool| && j != k ==> d'.pool[j] == d.pool[j]
    requires d'.pool[k].inProcess ==> d'.pool[k].fill
    ensures WakesOk(d', readers[k := Waiting(want)])
  {
    var readers' := readers[k := Waiting(want)];
    forall j | j in readers'
      ensures j < |d'.pool| && WakeOk(d', j, readers'[j])
    {
      if j != k {
        assert WakeOk(d, j, readers[j]);
      }
    }
  }

  // Leaving after a wait that ended without FILL.
  lemma GiveUpKeeps(s: Sys, k: nat)
    requires Inv(s) && k in s.readers && s.readers[k].Woken? && !s.readers[k].filled
    ensures Inv(Apply(s, Enter(k))) <==> !LateLeave(s, Enter(k))
  {
    GiveUpSteady(s, k);
    LeaveShape(s.dev, k);
    LeaveServes(s.dev, s.readers, k);
    assert Apply(s, Enter(k)) == Leave(s, s.dev, k);
  }

  // A reader woken by FILL finds data and starts copying it.
  lemma EnterKeeps(s: Sys, k: nat)
    requires Inv(s) && k in s.readers && s.readers[k].Woken? && s.readers[k].filled
    ensures Begin(s.dev.ring, s.readers[k].want).Some?
    ensures Inv(Apply(s, Enter(k)))
  {
    NoSecondCopy(s, Enter(k));
    EnterSteady(s, k);
    assert WakeOk(s.dev, k, s.readers[k]) && CopyOk(s.dev.ring, s.readers[k]);
    FreeSpaceIsCapacityMinusStored(s.dev.ring);
    BeginCorrect(s.dev.ring, s.readers[k].want);
    var s' := Apply(s, Enter(k));
    forall j | j in s'.readers
      ensures j < |s'.dev.pool| && WakeOk(s'.dev, j, s'.readers[j])
    {
      assert WakeOk(s.dev, j, s.readers[j]);
    }
  }

  // Steps of one reader that touch nothing else.
  lemma PhaseServes(d: Dev, readers: map<nat, Phase>, k: nat, p: Phase)
    requires Served(d, readers) && k in readers && WakeOk(d, k, p)
    ensures Served(d, readers[k := p])
  {
    var readers' := readers[k := p];
    forall j | j in readers'
      ensures j < |d.pool| && WakeOk(d, j, readers'[j])
    {
      assert WakeOk(d, j, readers[j]);
    }
  }

  lemma WaitEndsServes(s: Sys, e: Event)
    requires Inv(s) && Enabled(s, e) && (e.Wake? || e.TimeOut?)
    ensures Served(s.dev, Apply(s, e).readers)
  {
    var k := e.slot;
    assert WakeOk(s.dev, k, s.readers[k]);
    PhaseServes(s.dev, s.readers, k, Woken(s.readers[k].want, e.Wake?));
  }

  lemma FinishServes(s: Sys, k: nat, accepts: set<nat>)
    requires Inv(s) && Enabled(s, Finish(k, accepts)) && Retake(s.dev.ring, s.readers[k].copy).Done?
    ensures Served(Apply(s, Finish(k, accepts)).dev, s.readers - {k})
  {
    assert WakeOk(s.dev, k, s.readers[k]);
    FinishDrains(s, k, accepts);
    var d := Drain(Taken(s, k), accepts);
    assert HeadServed(s.dev) && d.pool == s.dev.pool && d.notify == s.dev.notify;
    forall j | j in s.readers && j != k
      ensures WakeOk(d, j, s.readers[j])
    {
      assert WakeOk(s.dev, j, s.readers[j]);
    }
    LeaveShape(d, k);
    LeaveServes(d, s.readers, k);
  }

  /** Every step keeps the invariant, except a reader giving up late, which always breaks it. */
  lemma StepKeepsInv(s: Sys, e: Event)
    requires Inv(s) && Enabled(s, e)
    ensures Inv(Apply(s, e)) <==> !LateLeave(s, e)
  {
    NoSecondCopy(s, e);
    StepKeepsSteady(s, e);
    match e
    case Arrive(urb, block) => ArriveServes(s, urb, block);
    case Register(want) => RegisterServes(s, want);
    case Wake(_) => WaitEndsServes(s, e);
    case TimeOut(_) => WaitEndsServes(s, e);
    case Enter(k) =>
      if s.readers[k].filled {
        EnterKeeps(s, k);
      } else {
        GiveUpKeeps(s, k);
      }
    case CopySome(k, n) =>
      assert WakeOk(s.dev, k, s.readers[k]);
      PhaseServes(s.dev, s.readers, k, Apply(s, e).readers[k]);
    case Finish(k, accepts) =>
      assert WakeOk(s.dev, k, s.readers[k]);
      if Retake(s.dev.ring, s.readers[k].copy).More? {
        PhaseServes(s.dev, s.readers, k, Apply(s, e).readers[k]);
      } else {
        FinishServes(s, k, accepts);
      }
    case _ => SeesOnly(s.dev, Apply(s, e).dev, s.readers);
  }
}
