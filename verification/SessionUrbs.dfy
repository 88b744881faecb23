// Where every URB of a session is: with the USB core, about to go back to it, parked,
// or given up because the core refused it or completed it with an error.
module SessionUrbs {
  import opened Bytes
  import opened Lists
  import opened ReadRing
  import opened Receive
  import opened Session
  import opened SessionBytes
  import opened SessionAlerts
  import opened SessionRuns

  /** The URBs that one step gives up: one completed with an error, one the core refuses, and
      those that a drain unparks and the core refuses. */
  ghost function GivenUp(s: Sys, e: Event): set<nat>
    requires Shape(s) && QueueOk(s.dev) && Enabled(s, e)
  {
    match e
    case ArriveError(u) => {u}
    case Resubmit(u, accepted) => if accepted then {} else {u}
    case Finish(k, accepts) =>
      if Retake(s.dev.ring, s.readers[k].copy).More? then {}
      else
        RingIsNotQueue(s.dev, Taken(s, k));
        DrainResubmits(Taken(s, k), accepts);
        ParkedUrbs(s.dev) - ParkedUrbs(Drain(Taken(s, k), accepts)) - accepts
    case _ => {}
  }

  // In how many of the three places a URB is.
  ghost function Places(d: Dev, u: nat): nat {
    (if u in d.flying then 1 else 0) + (if u in d.returning then 1 else 0) + (if u in ParkedUrbs(d) then 1 else 0)
  }

  /** A step takes out of the three places exactly the URBs that it gives up. */
  ghost predicate Accounted(d: Dev, d': Dev, gone: set<nat>) {
    forall u: nat :: Places(d', u) + (if u in gone then 1 else 0) == Places(d, u)
  }

  lemma ParkedApart(d: Dev, u: nat)
    requires QueueOk(d)
    ensures Places(d, u) <= 1
  {
  }

  /** Each event moves exactly the URB it is about, to exactly one other place. */
  ghost predicate Moved(d: Dev, d': Dev, e: Event)
    requires QueueOk(d) && QueueOk(d')
  {
    match e
    case Arrive(u, block) =>
      && d'.flying == d.flying - {u}
      && (if d.size > 0 || |block| > d.ring.FreeSpace()
          then ParkedUrbs(d') == ParkedUrbs(d) + {u} && d'.returning == d.returning
          else ParkedUrbs(d') == ParkedUrbs(d) && d'.returning == d.returning + {u})
    case ArriveNothing(u) =>
      d'.flying == d.flying - {u} && d'.returning == d.returning + {u} && ParkedUrbs(d') == ParkedUrbs(d)
    case ArriveError(u) =>
      d'.flying == d.flying - {u} && d'.returning == d.returning && ParkedUrbs(d') == ParkedUrbs(d)
    case Resubmit(u, accepted) =>
      && d'.flying == (if accepted then d.flying + {u} else d.flying)
      && d'.returning == d.returning - {u} && ParkedUrbs(d') == ParkedUrbs(d)
    case Finish(_, accepts) =>
      && ParkedUrbs(d') <= ParkedUrbs(d) && d'.returning == d.returning
      && d'.flying == d.flying + (ParkedUrbs(d) - ParkedUrbs(d')) * accepts
    case _ => d'.flying == d.flying && d'.returning == d.returning && ParkedUrbs(d') == ParkedUrbs(d)
  }

  // Nodes, their number and the sets are as they were.
  ghost predicate SameUrbs(d: Dev, d': Dev) {
    d'.nodes == d.nodes && d'.size == d.size && d'.flying == d.flying && d'.returning == d.returning
  }

  lemma LeaveSame(d: Dev, k: nat)
    requires d.Shape() && k < |d.pool|
    ensures RemoveNotification(d, k).Shape() && SameUrbs(d, Notify(RemoveNotification(d, k), None))
  {
    LeaveShape(d, k);
  }

  lemma StepMoves(s: Sys, e: Event)
    requires Alert(s.dev, s.readers) && Shape(s) && Enabled(s, e)
    ensures QueueOk(Apply(s, e).dev) && Moved(s.dev, Apply(s, e).dev, e)
  {
    StepKeepsAlert(s, e);
    match e
    case Arrive(u, block) => ArriveMoves(s, u, block);
    case Finish(k, accepts) => FinishMovesUrbs(s, k, accepts);
    case Enter(k) => EnterSame(s, k);
    case Register(want) => RegisterSame(s, want);
    case _ =>
  }

  lemma RegisterSame(s: Sys, want: nat)
    requires Shape(s) && 0 < want
    ensures SameUrbs(s.dev, Apply(s, Register(want)).dev)
  {
  }

  lemma EnterSame(s: Sys, k: nat)
    requires Shape(s) && Enabled(s, Enter(k))
    ensures SameUrbs(s.dev, Apply(s, Enter(k)).dev)
  {
    LeaveSame(s.dev, k);
    LeaveSame(ClearFill(s.dev, k), k);
  }

  lemma FinishMovesUrbs(s: Sys, k: nat, accepts: set<nat>)
    requires Alert(s.dev, s.readers) && Shape(s) && Enabled(s, Finish(k, accepts))
    requires QueueOk(Apply(s, Finish(k, accepts)).dev)
    ensures Moved(s.dev, Apply(s, Finish(k, accepts)).dev, Finish(k, accepts))
  {
    if Retake(s.dev.ring, s.readers[k].copy).Done? {
      FinishEnds(s, k, accepts);
      DrainResubmits(Taken(s, k), accepts);
    }
  }

  // At the end of a read the URBs are where the drain left them.
  lemma FinishEnds(s: Sys, k: nat, accepts: set<nat>)
    requires QueueOk(s.dev) && Shape(s) && Enabled(s, Finish(k, accepts))
    requires Retake(s.dev.ring, s.readers[k].copy).Done?
    ensures QueueOk(Taken(s, k)) && SameUrbs(s.dev, Taken(s, k))
    ensures SameUrbs(Drain(Taken(s, k), accepts), Apply(s, Finish(k, accepts)).dev)
  {
    var d := Taken(s, k);
    RingIsNotQueue(s.dev, d);
    DrainShape(d, accepts);
    LeaveSame(Drain(d, accepts), k);
  }

  lemma FinishGivesUp(s: Sys, k: nat, accepts: set<nat>)
    requires QueueOk(s.dev) && Shape(s) && Enabled(s, Finish(k, accepts))
    ensures GivenUp(s, Finish(k, accepts)) == ParkedUrbs(s.dev) - ParkedUrbs(Apply(s, Finish(k, accepts)).dev) - accepts
  {
    if Retake(s.dev.ring, s.readers[k].copy).Done? {
      FinishEnds(s, k, accepts);
    }
  }

  lemma ArriveMoves(s: Sys, u: nat, block: seq<byte>)
    requires Alert(s.dev, s.readers) && Shape(s) && Enabled(s, Arrive(u, block))
    requires QueueOk(Apply(s, Arrive(u, block)).dev)
    ensures Moved(s.dev, Apply(s, Arrive(u, block)).dev, Arrive(u, block))
  {
    var d := s.dev;
    AddRefinesFifo(d.ring, block);
    if d.size > 0 || |block| > d.ring.FreeSpace() {
      IdleNodeLeft(d, u);
      OneMoreBusy(d.nodes, d.size, u);
    }
  }

  lemma OneMoreBusy(nodes: seq<Node>, size: nat, u: nat)
    requires size < |nodes|
    ensures BusyUrbs(nodes[size := Busy(u)], size + 1) == BusyUrbs(nodes, size) + {u}
  {
    var nodes' := nodes[size := Busy(u)];
    assert nodes'[size].urb == u;
    forall v | v in BusyUrbs(nodes, size)
      ensures v in BusyUrbs(nodes', size + 1)
    {
      var i :| 0 <= i < size && nodes[i].Busy? && nodes[i].urb == v;
      assert nodes'[i].urb == v;
    }
  }

  lemma StepAccounts(s: Sys, e: Event)
    requires Alert(s.dev, s.readers) && Shape(s) && Enabled(s, e)
    ensures QueueOk(s.dev) && Accounted(s.dev, Apply(s, e).dev, GivenUp(s, e))
  {
    StepMoves(s, e);
    var d, d' := s.dev, Apply(s, e).dev;
    if e.Finish? {
      FinishGivesUp(s, e.slot, e.accepts);
    }
    forall u: nat
      ensures Places(d', u) + (if u in GivenUp(s, e) then 1 else 0) == Places(d, u)
    {
      ParkedApart(d, u);
      ParkedApart(d', u);
    }
  }

  // The URBs given up in step n, and in each step.
  ghost function StepGivesUp(states: seq<Sys>, events: seq<Event>, n: nat): set<nat>
    requires IsRun(states, events) && n < |events|
  {
    assert Steps(states[n], events[n], states[n + 1]);
    RunReachesAlert(states, events, n);
    GivenUp(states[n], events[n])
  }

  ghost function GivenUps(states: seq<Sys>, events: seq<Event>): (gone: seq<set<nat>>)
    requires IsRun(states, events)
    ensures |gone| == |events|
  {
    seq(|events|, i requires 0 <= i < |events| => StepGivesUp(states, events, i))
  }

  ghost function Union(sets: seq<set<nat>>): set<nat> {
    if sets == [] then {} else Union(sets[..|sets| - 1]) + sets[|sets| - 1]
  }

  /** These URBs, and no others, are each in exactly one place: with the core, about to go
      back, parked, or lost. */
  ghost predicate InOnePlace(urbs: set<nat>, d: Dev, lost: set<nat>) {
    forall u: nat :: Places(d, u) + (if u in lost then 1 else 0) == if u in urbs then 1 else 0
  }

  /** In every run that is followed, every URB that was with the core at the start is in
      exactly one place: with the core, about to go back, parked, or given up. */
  lemma UrbsAccounted(states: seq<Sys>, events: seq<Event>, n: nat)
    requires IsRun(states, events) && n < |states|
    ensures InOnePlace(states[0].dev.flying, states[n].dev, Union(GivenUps(states, events)[..n]))
  {
    var devs := seq(|states|, i requires 0 <= i < |states| => states[i].dev);
    RunAccounts(states, events, devs);
    assert devs[0].size == 0 && devs[0].returning == {};
    StartsInOnePlace(devs[0]);
    AccountedThroughout(devs, GivenUps(states, events), n);
  }

  lemma RunAccounts(states: seq<Sys>, events: seq<Event>, devs: seq<Dev>)
    requires IsRun(states, events) && |devs| == |states| && forall i :: 0 <= i < |states| ==> devs[i] == states[i].dev
    ensures forall i :: 0 <= i < |events| ==> Accounted(devs[i], devs[i + 1], GivenUps(states, events)[i])
  {
    forall i | 0 <= i < |events|
      ensures Accounted(devs[i], devs[i + 1], GivenUps(states, events)[i])
    {
      RunStepAccounts(states, events, i);
    }
  }

  lemma RunStepAccounts(states: seq<Sys>, events: seq<Event>, n: nat)
    requires IsRun(states, events) && n < |events|
    ensures Accounted(states[n].dev, states[n + 1].dev, GivenUps(states, events)[n])
  {
    assert Steps(states[n], events[n], states[n + 1]);
    RunReachesAlert(states, events, n);
    StepAccounts(states[n], events[n]);
    assert GivenUps(states, events)[n] == GivenUp(states[n], events[n]);
  }

  lemma StartsInOnePlace(d: Dev)
    requires d.size == 0 && d.returning == {}
    ensures InOnePlace(d.flying, d, {})
  {
  }

  // Steps that account for every URB, one after the other.
  lemma {:induction false} AccountedThroughout(devs: seq<Dev>, gone: seq<set<nat>>, n: nat)
    requires |devs| == |gone| + 1 && n < |devs| && InOnePlace(devs[0].flying, devs[0], {})
    requires forall i :: 0 <= i < |gone| ==> Accounted(devs[i], devs[i + 1], gone[i])
    ensures InOnePlace(devs[0].flying, devs[n], Union(gone[..n]))
  {
    if n > 0 {
      AccountedThroughout(devs, gone, n - 1);
      assert gone[..n][..n - 1] == gone[..n - 1];
      Chained(devs[0].flying, devs[n - 1], Union(gone[..n - 1]), devs[n], gone[n - 1]);
    }
  }

  lemma Chained(urbs: set<nat>, d: Dev, lost: set<nat>, d': Dev, gone: set<nat>)
    requires Accounted(d, d', gone) && InOnePlace(urbs, d, lost)
    ensures InOnePlace(urbs, d', lost + gone)
  {
    forall u: nat
      ensures Places(d', u) + (if u in lost + gone then 1 else 0) == if u in urbs then 1 else 0
    {
      assert Places(d', u) + (if u in gone then 1 else 0) == Places(d, u);
      assert Places(d, u) + (if u in lost then 1 else 0) == if u in urbs then 1 else 0;
    }
  }
}
