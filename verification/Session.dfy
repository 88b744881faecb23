// An open QDSS/DIAG session as a state machine: completions, waiting readers and
// copying readers, one step per section that holds mReadMemLock (and per stretch
// that does not), in any order. src/linux/qcom_usb/qcom_usb_main.c, ReadSyncBlk.
module Session {
  import opened Bytes
  import opened Lists
  import opened ReadRing
  import opened Receive

  /** Where a thread inside ReadSyncBlk is. `owed` and `user` record the smaller of
      what was asked for and what was stored, and the bytes copied so far. */
  datatype Phase =
    | Waiting(want: nat)                  // in qti_wait_event
    | Woken(want: nat, filled: bool)      // returned from it, lock not yet retaken
    | Copying(want: nat, owed: nat, copy: Copy, user: seq<byte>)  // lock dropped by cpyToTargetIter

  /** Readers are keyed by the pool slot they hold. `received` and `delivered` record
      what completions brought and what reads have returned. */
  datatype Sys = Sys(dev: Dev, readers: map<nat, Phase>, received: seq<byte>, delivered: seq<byte>)

  datatype Event =
    | Arrive(urb: nat, block: seq<byte>)  // BlkCallback with data
    | ArriveNothing(urb: nat)             // BlkCallback with actual_length 0
    | ArriveError(urb: nat)               // BlkCallback with an error status
    | Resubmit(urb: nat, accepted: bool)  // ResubmitBulkURB after the lock is released
    | Register(want: nat)                 // ReadSyncBlk up to qti_wait_event
    | Wake(slot: nat)                     // qti_wait_event returns FILL
    | TimeOut(slot: nat)                  // qti_wait_event times out or is interrupted
    | Enter(slot: nat)                    // the lock is retaken after the wait
    | CopySome(slot: nat, n: nat)         // unlocked copying proceeds by n bytes
    | Finish(slot: nat, accepts: set<nat>)// a copy is complete and the lock retaken

  ghost predicate Shape(s: Sys) {
    && s.dev.Shape()
    && (forall k :: k in s.readers ==> k < |s.dev.pool|)
  }

  // Bytes of the current copy that are still to be made.
  function Position(p: Phase): int
    requires p.Copying?
  {
    p.copy.From() + |p.user| - p.copy.Before()
  }

  /** When an event can happen. A session is followed while the indices describe a
      buffer; InvariantMeansFollowed shows that this never rules an event out in the
      runs the theorems speak of. */
  ghost predicate Enabled(s: Sys, e: Event)
    requires Shape(s)
  {
    match e
    case Arrive(urb, block) => urb in s.dev.flying && 0 < |block| <= |s.dev.ring.buf|
    case ArriveNothing(urb) => urb in s.dev.flying
    case ArriveError(urb) => urb in s.dev.flying
    case Resubmit(urb, _) => urb in s.dev.returning
    case Register(want) => 0 < want
    case Wake(k) => k in s.readers && s.readers[k].Waiting? && s.dev.pool[k].fill
    case TimeOut(k) => k in s.readers && s.readers[k].Waiting? && !s.dev.pool[k].fill
    case Enter(k) => k in s.readers && s.readers[k].Woken?
    case CopySome(k, n) =>
      && k in s.readers && s.readers[k].Copying?
      && 0 <= Position(s.readers[k])
      && Position(s.readers[k]) + n <= s.readers[k].copy.To() <= |s.dev.ring.buf|
    case Finish(k, _) =>
      && k in s.readers && s.readers[k].Copying?
      && Position(s.readers[k]) == s.readers[k].copy.To()
      && Followed(s.dev.ring, s.readers[k].copy)
  }

  ghost predicate Followed(r: Ring, c: Copy)
    requires r.Valid()
  {
    && (c.Leg1? ==> c.from <= c.edge && c.edge - c.from < c.want)
    && (Retake(r, c).Done? ==> Retake(r, c).ring.Valid())
  }

  // The common end of ReadSyncBlk.
  function Leave(s: Sys, d: Dev, k: nat): Sys
    requires d.Shape() && k < |d.pool|
  {
    LeaveShape(d, k);
    s.(dev := Notify(RemoveNotification(d, k), None), readers := s.readers - {k})
  }

  lemma LeaveShape(d: Dev, k: nat)
    requires d.Shape() && k < |d.pool|
    ensures RemoveNotification(d, k).Shape()
  {
    WithoutIsSublist(d.notify, k);
    var d' := RemoveNotification(d, k);
    assert forall i :: 0 <= i < |d'.notify| ==> d'.notify[i] in d.notify;
  }

  ghost function Apply(s: Sys, e: Event): Sys
    requires Shape(s) && Enabled(s, e)
  {
    match e
    case Arrive(urb, block) =>
      s.(dev := BlkCallback(s.dev, urb, block), received := s.received + block)
    case ArriveNothing(urb) =>
      s.(dev := s.dev.(flying := s.dev.flying - {urb}, returning := s.dev.returning + {urb}))
    case ArriveError(urb) =>
      s.(dev := s.dev.(flying := s.dev.flying - {urb}))
    case Resubmit(urb, accepted) =>
      s.(dev := s.dev.(returning := s.dev.returning - {urb},
                       flying := if accepted then s.dev.flying + {urb} else s.dev.flying))
    case Register(want) =>
      (match AddToNotifyList(s.dev)
       case None => s
       case Some((d, k)) => s.(dev := Notify(d, Some(k)), readers := s.readers[k := Waiting(want)]))
    case Wake(k) => s.(readers := s.readers[k := Woken(s.readers[k].want, true)])
    case TimeOut(k) => s.(readers := s.readers[k := Woken(s.readers[k].want, false)])
    case Enter(k) =>
      var p := s.readers[k];
      if p.filled then
        var d := ClearFill(s.dev, k);
        (match Begin(d.ring, p.want)
         case None => Leave(s, d, k)
         case Some(c) =>
           s.(dev := d, readers := s.readers[k := Copying(p.want, Min(p.want, |d.ring.Contents()|), c, [])]))
      else Leave(s, s.dev, k)
    case CopySome(k, n) =>
      var p := s.readers[k];
      var at := Position(p);
      s.(readers := s.readers[k := p.(user := p.user + s.dev.ring.buf[at..at + n])])
    case Finish(k, accepts) =>
      var p := s.readers[k];
      (match Retake(s.dev.ring, p.copy)
       case More(c) => s.(readers := s.readers[k := p.(copy := c)])
       case Done(ring) =>
         DrainShape(s.dev.(ring := ring), accepts);
         Leave(s.(delivered := s.delivered + p.user), Drain(s.dev.(ring := ring), accepts), k))
  }

  lemma {:induction false} DrainShape(d: Dev, accepts: set<nat>)
    requires d.Shape()
    ensures Drain(d, accepts).Shape() && |Drain(d, accepts).pool| == |d.pool|
    decreases d.size
  {
    PopShape(d, accepts);
    var (d', more) := Pop(d, accepts);
    if more {
      DrainShape(d', accepts);
    }
  }

  /** The session as it starts: buffer and queue empty, nobody registered. */
  ghost predicate Init(s: Sys) {
    && s.dev.Shape()
    && s.dev.ring.empty
    && s.dev.size == 0
    && (forall i :: 0 <= i < |s.dev.nodes| ==> s.dev.nodes[i] == Idle)
    && s.dev.returning == {}
    && s.dev.notify == []
    && (forall k :: 0 <= k < |s.dev.pool| ==> s.dev.pool[k] == Slot(false, false, false))
    && s.readers == map[]
    && s.received == s.delivered == []
  }

  /** A reader gives up although FILL was set for it between the end of its wait
      and its retaking the lock. */
  ghost predicate LateLeave(s: Sys, e: Event) {
    && e.Enter?
    && e.slot in s.readers && s.readers[e.slot].Woken? && !s.readers[e.slot].filled
    && e.slot < |s.dev.pool| && s.dev.pool[e.slot].fill
  }

  // A reader copies at the moment.
  ghost predicate SomeCopies(s: Sys) {
    exists j :: j in s.readers && s.readers[j].Copying?
  }

  /** A woken reader goes on to copy while another reader is copying. */
  ghost predicate SecondCopy(s: Sys, e: Event) {
    && e.Enter?
    && e.slot in s.readers && s.readers[e.slot].Woken? && s.readers[e.slot].filled
    && SomeCopies(s)
  }
}
