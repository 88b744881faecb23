// What holds in the runs of a session, and the one way a run can go wrong.
module SessionRuns {
  import opened Bytes
  import opened ReadRing
  import opened Receive
  import opened Session
  import opened SessionBytes
  import opened SessionWakes
  import opened SessionAlerts

  // ------------------------------------------------------------------------
  // Runs

  /** A run of a session: states[i] is left by events[i]. After a second copy a run is
      followed only as long as the indices describe a buffer. */
  ghost predicate IsRun(states: seq<Sys>, events: seq<Event>) {
    Follows(states, events) && Init(states[0])
  }

  ghost predicate Follows(states: seq<Sys>, events: seq<Event>) {
    && |states| == |events| + 1
    && forall i :: 0 <= i < |events| ==> Steps(states[i], events[i], states[i + 1])
  }

  ghost predicate Steps(s: Sys, e: Event, s': Sys) {
    Shape(s) && Enabled(s, e) && s' == Apply(s, e)
  }

  // ------------------------------------------------------------------------
  // Bytes

  // None of the first n steps starts a copy beside another.
  ghost predicate NoSecondCopyBefore(states: seq<Sys>, events: seq<Event>, n: nat)
    requires IsRun(states, events) && n <= |events|
  {
    forall i :: 0 <= i < n ==> !SecondCopy(states[i], events[i])
  }

  lemma {:induction false} RunReachesSteady(states: seq<Sys>, events: seq<Event>, n: nat)
    requires IsRun(states, events) && n < |states| && NoSecondCopyBefore(states, events, n)
    ensures Steady(states[n])
  {
    if n == 0 {
      InitSteady(states[0]);
    } else {
      RunReachesSteady(states, events, n - 1);
      assert Steps(states[n - 1], events[n - 1], states[n - 1 + 1]);
      StepKeepsSteady(states[n - 1], events[n - 1]);
    }
  }

  /** End to end, at every moment up to which no reader has started to copy beside
      another: whatever completions brought is what reads returned, then what the ring
      holds, then what is parked, in that order; and parked blocks are never left
      waiting for an empty ring. */
  lemma NothingLostOrReordered(states: seq<Sys>, events: seq<Event>, n: nat)
    requires IsRun(states, events) && n < |states| && NoSecondCopyBefore(states, events, n)
    ensures var s := states[n];
      && QueueOk(s.dev)
      && s.received == s.delivered + s.dev.ring.Contents() + Parked(s.dev)
      && (Parked(s.dev) != [] ==> s.dev.ring.Contents() != [])
  {
    RunReachesSteady(states, events, n);
    FreeSpaceIsCapacityMinusStored(states[n].dev.ring);
    if states[n].dev.size == 0 {
      assert Blocks(states[n].dev) == [];
    }
  }

  /** With one reader registered at a time, that is every reachable state: whoever gives up,
      however late. */
  lemma OneReaderLosesNothing(states: seq<Sys>, events: seq<Event>, n: nat)
    requires IsRun(states, events) && n < |states|
    requires forall i, j, k :: 0 <= i < n && j in states[i].readers && k in states[i].readers ==> j == k
    ensures NoSecondCopyBefore(states, events, n)
    ensures QueueOk(states[n].dev)
    ensures var s := states[n]; s.received == s.delivered + s.dev.ring.Contents() + Parked(s.dev)
  {
    forall i | 0 <= i < n
      ensures !SecondCopy(states[i], events[i])
    {
      var s, e := states[i], events[i];
      if e.Enter? && e.slot in s.readers && s.readers[e.slot].Woken? {
        assert forall j :: j in s.readers ==> j == e.slot;
      }
    }
    NothingLostOrReordered(states, events, n);
  }

  /** A second copy starts only in a run in which some reader gave up late before. */
  lemma SecondCopyNeedsLateLeave(states: seq<Sys>, events: seq<Event>, n: nat)
    requires IsRun(states, events) && n < |events| && SecondCopy(states[n], events[n])
    ensures exists i :: 0 <= i < n && LateLeave(states[i], events[i])
  {
    if forall i :: 0 <= i < n ==> !LateLeave(states[i], events[i]) {
      RunReachesInv(states, events, n);
      NoSecondCopy(states[n], events[n]);
    }
  }

  // ------------------------------------------------------------------------
  // Wake-ups

  ghost predicate NobodyLeavesLate(states: seq<Sys>, events: seq<Event>)
    requires IsRun(states, events)
  {
    forall i :: 0 <= i < |events| ==> !LateLeave(states[i], events[i])
  }

  /** The invariant holds throughout a run if, and only if, no reader in it gives up late. */
  lemma RunsKeepInv(states: seq<Sys>, events: seq<Event>)
    requires IsRun(states, events)
    ensures (forall i :: 0 <= i < |states| ==> Inv(states[i])) <==> NobodyLeavesLate(states, events)
  {
    if NobodyLeavesLate(states, events) {
      forall i | 0 <= i < |states|
        ensures Inv(states[i])
      {
        RunReachesInv(states, events, i);
      }
    } else {
      var i :| 0 <= i < |events| && LateLeave(states[i], events[i]);
      assert Steps(states[i], events[i], states[i + 1]);
      if Inv(states[i]) {
        StepKeepsInv(states[i], events[i]);
      }
      assert !Inv(states[i]) || !Inv(states[i + 1]);
    }
  }

  lemma {:induction false} RunReachesInv(states: seq<Sys>, events: seq<Event>, i: nat)
    requires IsRun(states, events) && i < |states|
    requires forall j :: 0 <= j < i ==> !LateLeave(states[j], events[j])
    ensures Inv(states[i])
  {
    if i == 0 {
      InitInv(states[0]);
    } else {
      RunReachesInv(states, events, i - 1);
      assert Steps(states[i - 1], events[i - 1], states[i - 1 + 1]);
      StepKeepsInv(states[i - 1], events[i - 1]);
    }
  }

  lemma {:induction false} RunReachesAlert(states: seq<Sys>, events: seq<Event>, n: nat)
    requires IsRun(states, events) && n < |states|
    ensures Alert(states[n].dev, states[n].readers) && Moving(states[n].dev)
  {
    if n == 0 {
      InitAlert(states[0]);
    } else {
      RunReachesAlert(states, events, n - 1);
      assert Steps(states[n - 1], events[n - 1], states[n - 1 + 1]);
      StepKeepsAlert(states[n - 1], events[n - 1]);
      StepKeepsMoving(states[n - 1], events[n - 1]);
    }
  }

  /** The parked URBs, in any run that is followed: busy nodes are a prefix in arrival order, with
      distinct URBs that are not in flight, and never wait for an empty ring. */
  lemma ParkedInOrder(states: seq<Sys>, events: seq<Event>, n: nat)
    requires IsRun(states, events) && n < |states|
    ensures QueueOk(states[n].dev)
    ensures states[n].dev.size > 0 ==> states[n].dev.ring.Contents() != []
  {
    RunReachesAlert(states, events, n);
    FreeSpaceIsCapacityMinusStored(states[n].dev.ring);
  }

  /** No lost wake-up, in any run that is followed: with data stored and a reader registered, the
      reader at the head, and no other, is in process; it has FILL set for it or is
      already copying. And a slot is used exactly while it is listed. */
  lemma NoLostWakeUp(states: seq<Sys>, events: seq<Event>, n: nat)
    requires IsRun(states, events) && n < |states|
    ensures var s := states[n];
      && (forall k :: 0 <= k < |s.dev.pool| ==> (s.dev.pool[k].used <==> k in s.dev.notify))
      && s.dev.ring.Valid()
      && (s.dev.ring.Contents() != [] && s.readers != map[] ==>
            && s.dev.notify != [] && s.dev.notify[0] in s.readers
            && (forall k :: 0 <= k < |s.dev.pool| ==> (s.dev.pool[k].inProcess <==> k == s.dev.notify[0]))
            && s.dev.notify[0] < |s.dev.pool|
            && (s.dev.pool[s.dev.notify[0]].fill || s.readers[s.dev.notify[0]].Copying?))
  {
    RunReachesAlert(states, events, n);
    var s := states[n];
    FreeSpaceIsCapacityMinusStored(s.dev.ring);
    if s.readers != map[] {
      var j :| j in s.readers;
      assert j in s.dev.notify;
    }
  }

  /** The notify list is a lock: only the reader at its head ever copies. */
  lemma OnlyHeadCopies(s: Sys, k: nat)
    requires Inv(s) && k in s.readers && s.readers[k].Copying?
    ensures s.dev.notify != [] && k == s.dev.notify[0]
    ensures forall j :: j in s.readers && s.readers[j].Copying? ==> j == k
  {
    forall j | j in s.readers && s.readers[j].Copying?
      ensures IsHead(s.dev, j)
    {
      assert WakeOk(s.dev, j, s.readers[j]);
    }
  }

  // ------------------------------------------------------------------------
  // A read, with others going on beside it

  ghost predicate ActsOn(e: Event, k: nat) {
    match e
    case Wake(j) => j == k
    case TimeOut(j) => j == k
    case Enter(j) => j == k
    case CopySome(j, _) => j == k
    case Finish(j, _) => j == k
    case _ => false
  }

  /** Whatever else happens while a reader copies without the lock, its range is not
      overwritten, its copy is not disturbed and the start index stays put. */
  lemma CopyUndisturbed(s: Sys, e: Event, k: nat)
    requires Steady(s) && Enabled(s, e) && k in s.readers && s.readers[k].Copying? && !ActsOn(e, k)
    ensures var s' := Apply(s, e);
      && k in s'.readers && s'.readers[k] == s.readers[k]
      && s'.dev.ring.start == s.dev.ring.start
      && s.readers[k].copy.From() <= s.readers[k].copy.To() <= |s.dev.ring.buf| == |s'.dev.ring.buf|
      && s'.dev.ring.buf[s.readers[k].copy.From()..s.readers[k].copy.To()]
         == s.dev.ring.buf[s.readers[k].copy.From()..s.readers[k].copy.To()]
  {
    var c := s.readers[k].copy;
    assert CopyOk(s.dev.ring, s.readers[k]);
    CopyReadsOldest(s.dev.ring, c);
    match e
    case Arrive(urb, block) => ArriveSparesCopy(s.dev, urb, block, c);
    case Register(want) => RegisterSpares(s, want, k);
    case Enter(j) => EnterSpares(s, j, k);
    case _ =>
  }

  lemma RegisterSpares(s: Sys, want: nat, k: nat)
    requires Steady(s) && 0 < want && k in s.readers
    ensures var s' := Apply(s, Register(want));
      k in s'.readers && s'.readers[k] == s.readers[k] && s'.dev.ring == s.dev.ring
  {
    if AddToNotifyList(s.dev).Some? {
      assert AddToNotifyList(s.dev).value.1 != k;
    }
  }

  lemma EnterSpares(s: Sys, j: nat, k: nat)
    requires Steady(s) && Enabled(s, Enter(j)) && k in s.readers && k != j
    ensures var s' := Apply(s, Enter(j));
      k in s'.readers && s'.readers[k] == s.readers[k] && s'.dev.ring == s.dev.ring
  {
    LeavesRing(s.dev, j);
    LeavesRing(ClearFill(s.dev, j), j);
  }

  lemma ArriveSparesCopy(d: Dev, urb: nat, block: seq<byte>, c: Copy)
    requires d.Shape() && urb < |d.nodes| && 0 < |block| && InProgress(d.ring, c)
    ensures var ring := BlkCallback(d, urb, block).ring;
      && ring.start == d.ring.start && |ring.buf| == |d.ring.buf|
      && c.From() <= c.To() <= |ring.buf|
      && ring.buf[c.From()..c.To()] == d.ring.buf[c.From()..c.To()]
  {
    CopyReadsOldest(d.ring, c);
    AddSparesCopy(d.ring, c, block);
    AddRefinesFifo(d.ring, block);
  }

  /** The model never stops following such a run: a copying reader can always make all
      the bytes it still owes, and then finish. */
  lemma InvariantMeansFollowed(s: Sys, k: nat, accepts: set<nat>)
    requires Steady(s) && k in s.readers && s.readers[k].Copying?
    ensures var p := s.readers[k];
      && 0 <= Position(p) <= p.copy.To()
      && Enabled(s, CopySome(k, p.copy.To() - Position(p)))
      && (Position(p) == p.copy.To() ==> Enabled(s, Finish(k, accepts)))
  {
    var p := s.readers[k];
    assert CopyOk(s.dev.ring, p);
    CopyReadsOldest(s.dev.ring, p.copy);
    RetakeCorrect(s.dev.ring, p.copy, p.want, p.owed);
  }

  /** What a read owes is fixed when it starts to copy: as much as it wants, or all that is
      stored then. Nobody changes it, nor what it wants, until it has finished. */
  lemma OwedFromTheStart(s: Sys, e: Event, k: nat)
    requires Steady(s) && Enabled(s, e) && k in s.readers
    requires k in Apply(s, e).readers && Apply(s, e).readers[k].Copying?
    ensures var p, p' := s.readers[k], Apply(s, e).readers[k];
      && p'.want == p.want
      && if p.Copying? then p'.owed == p.owed
         else e == Enter(k) && p'.user == [] &&
              p'.owed == if p.want <= |s.dev.ring.Contents()| then p.want else |s.dev.ring.Contents()|
  {
    match e
    case Register(_) =>
      if AddToNotifyList(s.dev).Some? {
        assert AddToNotifyList(s.dev).value.1 != k;
      }
    case _ =>
  }

  /** A finished read returns between `owed` and `want` bytes, the oldest stored ones,
      and what is left once it has drained the queue does not fit. */
  lemma ReadReturnsOldest(s: Sys, k: nat, accepts: set<nat>)
    requires Steady(s) && Enabled(s, Finish(k, accepts)) && Retake(s.dev.ring, s.readers[k].copy).Done?
    ensures var p, s' := s.readers[k], Apply(s, Finish(k, accepts));
      && 0 < |p.user| && p.owed <= |p.user| <= p.want
      && p.user <= s.dev.ring.Contents()
      && s'.delivered == s.delivered + p.user
      && k !in s'.readers
      && s'.dev.ring.Valid()
      && (s'.dev.size == 0 ||
           (s'.dev.nodes != [] && s'.dev.nodes[0].Busy? && s'.dev.nodes[0].urb < |s'.dev.payload|
            && s'.dev.ring.FreeSpace() < |s'.dev.payload[s'.dev.nodes[0].urb]|))
  {
    FinishReads(s, k, accepts);
    FinishDrains(s, k, accepts);
    var d := Drain(Taken(s, k), accepts);
    LeaveShape(d, k);
    LeaveSpares(d, k);
  }

  // Leaving touches the notify list and the pool only.
  lemma LeaveSpares(d: Dev, k: nat)
    requires d.Shape() && k < |d.pool| && RemoveNotification(d, k).Shape()
    ensures var d' := Notify(RemoveNotification(d, k), None);
      d' == d.(pool := d'.pool, notify := d'.notify)
  {
  }

  // ------------------------------------------------------------------------
  // A late leave does harm

  const FREE := Slot(false, false, false)
  const LISTED := Slot(true, false, false)
  const SERVED := Slot(true, true, true)
  const RENEWED := Slot(true, false, true)
  const CLEARED := Slot(true, true, false)
  const STALE := Slot(false, false, true)
  const EMPTY_RING := Ring([0, 0, 0, 0], 0, 0, true)
  const TWO_BYTES := Ring([7, 8, 0, 0], 0, 2, false)
  const NO_BYTES := Ring([7, 8, 0, 0], 2, 2, true)

  // One URB, two slots, a buffer of four bytes.
  function Small(ring: Ring, back: bool, pool: seq<Slot>, notify: seq<nat>): Dev {
    Dev(ring, [Idle], 0, [true], if back then [[7, 8]] else [[]],
        if back then {} else {0}, if back then {0} else {}, pool, notify)
  }

  // The states of the run, one reader's slot after the other.
  const COPYING := Copying(2, 2, All(0, 2), [])
  const COPIED := Copying(2, 2, All(0, 2), [7, 8])

  const S0 := Sys(Small(EMPTY_RING, false, [FREE, FREE], []), map[], [], [])
  const S1 := Sys(Small(EMPTY_RING, false, [LISTED, FREE], [0]), map[0 := Waiting(2)], [], [])
  const S2 := Sys(Small(EMPTY_RING, false, [LISTED, LISTED], [0, 1]), map[0 := Waiting(2), 1 := Waiting(2)], [], [])
  const S3 := Sys(Small(EMPTY_RING, false, [LISTED, LISTED], [0, 1]), map[0 := Woken(2, false), 1 := Waiting(2)], [], [])
  const S4 := Sys(Small(TWO_BYTES, true, [SERVED, LISTED], [0, 1]), map[0 := Woken(2, false), 1 := Waiting(2)], [7, 8], [])
  const S5 := Sys(Small(TWO_BYTES, true, [STALE, SERVED], [1]), map[1 := Waiting(2)], [7, 8], [])
  const S6 := Sys(Small(TWO_BYTES, true, [RENEWED, SERVED], [1, 0]), map[0 := Waiting(2), 1 := Waiting(2)], [7, 8], [])
  const S7 := Sys(Small(TWO_BYTES, true, [RENEWED, SERVED], [1, 0]), map[0 := Woken(2, true), 1 := Waiting(2)], [7, 8], [])
  const S8 := Sys(Small(TWO_BYTES, true, [RENEWED, SERVED], [1, 0]), map[0 := Woken(2, true), 1 := Woken(2, true)], [7, 8], [])
  const S9 := Sys(Small(TWO_BYTES, true, [RENEWED, CLEARED], [1, 0]), map[0 := Woken(2, true), 1 := COPYING], [7, 8], [])
  const S10 := Sys(Small(TWO_BYTES, true, [LISTED, CLEARED], [1, 0]), map[0 := COPYING, 1 := COPYING], [7, 8], [])
  const S11 := Sys(Small(TWO_BYTES, true, [LISTED, CLEARED], [1, 0]), map[0 := COPYING, 1 := COPIED], [7, 8], [])
  const S12 := Sys(Small(TWO_BYTES, true, [LISTED, CLEARED], [1, 0]), map[0 := COPIED, 1 := COPIED], [7, 8], [])
  const S13 := Sys(Small(NO_BYTES, true, [LISTED, FREE], [0]), map[0 := COPIED], [7, 8], [7, 8])
  const S14 := Sys(Small(NO_BYTES, true, [FREE, FREE], []), map[], [7, 8], [7, 8, 7, 8])

  lemma Step0() ensures Steps(S0, Register(2), S1) {}
  lemma Step1() ensures Steps(S1, Register(2), S2) {}
  lemma Step2() ensures Steps(S2, TimeOut(0), S3) {}
  lemma Step3() ensures Steps(S3, Arrive(0, [7, 8]), S4) {}
  lemma Step4() ensures Steps(S4, Enter(0), S5) && LateLeave(S4, Enter(0)) {}
  lemma Step5() ensures Steps(S5, Register(2), S6) {}
  lemma Step6() ensures Steps(S6, Wake(0), S7) {}
  lemma Step7() ensures Steps(S7, Wake(1), S8) {}
  lemma Step8() ensures Steps(S8, Enter(1), S9) {}
  lemma Step9() ensures Steps(S9, Enter(0), S10) {}
  lemma Step10() ensures Steps(S10, CopySome(1, 2), S11) { CopiesBoth(S10, 1); }
  lemma Step11() ensures Steps(S11, CopySome(0, 2), S12) { CopiesBoth(S11, 0); }
  lemma Step12() ensures Steps(S12, Finish(1, {}), S13) {}
  lemma Step13() ensures Steps(S13, Finish(0, {}), S14) {}

  lemma CopiesBoth(s: Sys, k: nat)
    requires s.dev.ring == TWO_BYTES && k in s.readers && s.readers[k] == COPYING && Shape(s)
    ensures Enabled(s, CopySome(k, 2)) && Apply(s, CopySome(k, 2)) == s.(readers := s.readers[k := COPIED])
  {
    assert [] + TWO_BYTES.buf[0..2] == [7, 8];
  }

  lemma Join(a: seq<Sys>, ea: seq<Event>, b: seq<Sys>, eb: seq<Event>)
    requires Follows(a, ea) && Follows(b, eb) && a[|ea|] == b[0]
    ensures Follows(a + b[1..], ea + eb)
    ensures (a + b[1..])[|ea + eb|] == b[|eb|]
  {
    var s, e := a + b[1..], ea + eb;
    forall i | 0 <= i < |e|
      ensures Steps(s[i], e[i], s[i + 1])
    {
      if i < |ea| {
        assert Steps(a[i], ea[i], a[i + 1]);
      } else {
        assert Steps(b[i - |ea|], eb[i - |ea|], b[i - |ea| + 1]);
      }
    }
  }

  lemma SlotGoesStale() returns (states: seq<Sys>, events: seq<Event>)
    ensures Follows(states, events) && |events| == 5
    ensures states[0] == S0 && states[4] == S4 && events[4] == Enter(0) && states[5] == S5
  {
    Step0(); Step1(); Step2(); Step3(); Step4();
    states := [S0, S1, S2, S3, S4, S5];
    events := [Register(2), Register(2), TimeOut(0), Arrive(0, [7, 8]), Enter(0)];
  }

  lemma TwoReadersEnter() returns (states: seq<Sys>, events: seq<Event>)
    ensures Follows(states, events) && |events| == 5 && states[0] == S5 && states[5] == S10
    ensures states[4] == S9 && events[4] == Enter(0)
  {
    Step5(); Step6(); Step7(); Step8(); Step9();
    states := [S5, S6, S7, S8, S9, S10];
    events := [Register(2), Wake(0), Wake(1), Enter(1), Enter(0)];
  }

  lemma BothReturn() returns (states: seq<Sys>, events: seq<Event>)
    ensures Follows(states, events) && |events| == 4 && states[0] == S10 && states[4] == S14
  {
    Step10(); Step11(); Step12(); Step13();
    states := [S10, S11, S12, S13, S14];
    events := [CopySome(1, 2), CopySome(0, 2), Finish(1, {}), Finish(0, {})];
  }

  /** A run in which one reader gives up late and, because of it, two others
      return the same two bytes. */
  lemma LateLeaveDeliversTwice() returns (states: seq<Sys>, events: seq<Event>)
    ensures IsRun(states, events)
    ensures exists i :: 0 <= i < |events| && LateLeave(states[i], events[i])
    ensures exists i :: 0 <= i < |events| && SecondCopy(states[i], events[i])
    ensures states[|events|].received == [7, 8] && states[|events|].delivered == [7, 8, 7, 8]
  {
    var a, ea := SlotGoesStale();
    var b, eb := TwoReadersEnter();
    var c, ec := BothReturn();
    Join(a, ea, b, eb);
    Join(a + b[1..], ea + eb, c, ec);
    states, events := a + b[1..] + c[1..], ea + eb + ec;
    Step4();
    assert LateLeave(states[4], events[4]);
    assert states[9] == S9 && S9.readers[1] == COPYING;
    assert SecondCopy(states[9], events[9]);
  }
}
