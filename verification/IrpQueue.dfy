// The filter's queue of pending requests: dispatch, cancel routine and worker
// thread over a locked list and an atomically exchanged cancel-routine
// pointer (src/windows/filter/qcfilter.c, src/windows/filter/qcfilterioc.c).
module IrpQueue {
  import opened Lists

  /** A request: Irp->Cancel, whether its CancelRoutine is set, how many calls of the
      cancel routine are under way, how often it was completed, and
      whether it has reached the dispatch routine. */
  datatype Irp = Irp(cancel: bool, routine: bool, handlers: nat, completed: nat, dispatched: bool)

  // FilterSpinLock, and how far its holder has come.
  datatype Lock = Free | Dispatching(irp: nat, armed: bool) | Cancelling(irp: nat, found: bool)

  // pDispatchIrp of QCFLT_ControlFilterThread: taken off the queue, then claimed by
  // exchanging the cancel routine for NULL.
  datatype Worker = Idle | Unlinked(irp: nat) | Claimed(irp: nat)

  // `stopped` is bCancelled.
  datatype Sys = Sys(irps: map<nat, Irp>, queue: seq<nat>, lock: Lock, worker: Worker, stopped: bool)

  datatype Event =
    | Cancel(irp: nat)          // IoCancelIrp takes the cancel routine, if it is set, and calls it
    | DispatchCheck(irp: nat)   // the IOCTL arrives; Irp->Cancel is tested under the lock
    | DispatchArm               // IoSetCancelRoutine
    | DispatchInsert            // InsertTailList, and the lock is released
    | HandlerEnter(irp: nat)    // QCFLT_DispatchCancelQueued takes the lock and looks for its request
    | HandlerLeave              // it completes it, or sets the cancel routine again, and releases the lock
    | WorkerDequeue
    | WorkerClaim
    | WorkerFinish(pend: bool)  // ProcessDispatchIrp completes the request, or leaves it pending
    | Stop                      // the stop event, taken while the worker waits

  ghost predicate Enabled(s: Sys, e: Event) {
    match e
    case Cancel(i) => i in s.irps && s.irps[i].completed == 0
    case DispatchCheck(i) => s.lock.Free? && i in s.irps && !s.irps[i].dispatched
    case DispatchArm => s.lock.Dispatching? && !s.lock.armed && s.lock.irp in s.irps
    case DispatchInsert => s.lock.Dispatching? && s.lock.armed && s.lock.irp in s.irps
    case HandlerEnter(i) => s.lock.Free? && i in s.irps && s.irps[i].handlers > 0
    case HandlerLeave => s.lock.Cancelling? && s.lock.irp in s.irps && s.irps[s.lock.irp].handlers > 0
    case WorkerDequeue => s.lock.Free? && s.worker.Idle? && !s.stopped && s.queue != []
    case WorkerClaim => s.worker.Unlinked? && s.worker.irp in s.irps
    case WorkerFinish(_) => s.worker.Claimed? && s.worker.irp in s.irps
    case Stop => s.worker.Idle?
  }

  // One request changed.
  function With(s: Sys, i: nat, irp: Irp): Sys {
    s.(irps := s.irps[i := irp])
  }

  ghost function Apply(s: Sys, e: Event): Sys
    requires Enabled(s, e)
  {
    match e
    case Cancel(i) =>
      var irp := s.irps[i];
      With(s, i, irp.(cancel := true, routine := false, handlers := irp.handlers + if irp.routine then 1 else 0))
    case DispatchCheck(i) =>
      var irp := s.irps[i];
      if irp.cancel then With(s, i, irp.(dispatched := true, routine := false, completed := irp.completed + 1))
      else With(s, i, irp.(dispatched := true)).(lock := Dispatching(i, false))
    case DispatchArm =>
      With(s, s.lock.irp, s.irps[s.lock.irp].(routine := true)).(lock := Dispatching(s.lock.irp, true))
    case DispatchInsert =>
      s.(queue := s.queue + [s.lock.irp], lock := Free)
    case HandlerEnter(i) =>
      s.(lock := Cancelling(i, i in s.queue))
    case HandlerLeave =>
      var i := s.lock.irp;
      var irp := s.irps[i];
      if s.lock.found then
        With(s, i, irp.(handlers := irp.handlers - 1, completed := irp.completed + 1))
        .(queue := Without(s.queue, i), lock := Free)
      else
        With(s, i, irp.(handlers := irp.handlers - 1, routine := true)).(lock := Free)
    case WorkerDequeue =>
      s.(worker := Unlinked(s.queue[0]), queue := s.queue[1..])
    case WorkerClaim =>
      var i := s.worker.irp;
      if s.irps[i].routine then With(s, i, s.irps[i].(routine := false)).(worker := Claimed(i))
      else s.(worker := Idle)
    case WorkerFinish(pend) =>
      var i := s.worker.irp;
      if pend then s.(worker := Idle)
      else With(s, i, s.irps[i].(completed := s.irps[i].completed + 1)).(worker := Idle)
    case Stop => s.(stopped := true)
  }

  // ------------------------------------------------------------------------
  // Who may complete a request

  /** The right to complete a request is one token: it is in the cancel-routine pointer,
      with a running cancel routine, with the worker, or spent. */
  function Tokens(s: Sys, i: nat): nat
    requires i in s.irps
  {
    (if s.irps[i].routine then 1 else 0) + s.irps[i].handlers + (if s.worker == Claimed(i) then 1 else 0)
    + s.irps[i].completed
  }

  ghost predicate Inv(s: Sys) {
    && (forall k :: 0 <= k < |s.queue| ==> s.queue[k] in s.irps)
    && (forall j, k :: 0 <= j < k < |s.queue| ==> s.queue[j] != s.queue[k])
    && (forall i :: i in s.irps ==> IrpOk(s, i))
    && (!s.lock.Free? ==> s.lock.irp in s.irps)
    && (!s.worker.Idle? ==> s.worker.irp in s.irps)
    && (s.stopped ==> s.worker.Idle?)
  }

  ghost predicate IrpOk(s: Sys, i: nat)
    requires i in s.irps
  {
    && Tokens(s, i) <= 1
    && (!s.irps[i].dispatched ==> Tokens(s, i) == 0 && !Held(s, i))
    && (i in s.queue ==> s.irps[i].completed == 0 && s.worker != Claimed(i) && s.worker != Unlinked(i))
    && (s.worker == Unlinked(i) ==> s.irps[i].completed == 0)
    && (s.lock == Dispatching(i, false) ==> Tokens(s, i) == 0)
    && (s.lock.Dispatching? && s.lock.irp == i ==>
          s.irps[i].completed == 0 && i !in s.queue && s.worker != Claimed(i) && s.worker != Unlinked(i))
    && (s.lock.Cancelling? && s.lock.irp == i ==> s.irps[i].handlers > 0 && (s.lock.found <==> i in s.queue))
  }

  // Someone, or the queue, still has hold of the request.
  ghost predicate Held(s: Sys, i: nat) {
    i in s.queue || s.worker == Unlinked(i) || s.worker == Claimed(i) || (s.lock.Dispatching? && s.lock.irp == i)
  }

  ghost predicate Init(s: Sys) {
    && (forall i :: i in s.irps ==> !s.irps[i].routine && s.irps[i].handlers == s.irps[i].completed == 0 && !s.irps[i].dispatched)
    && s.queue == [] && s.lock == Free && s.worker == Idle && !s.stopped
  }

  /** Every interleaved step keeps the invariant. */
  lemma StepKeepsInv(s: Sys, e: Event)
    requires Inv(s) && Enabled(s, e)
    ensures Inv(Apply(s, e))
  {
    match e
    case Cancel(_) => LocalKeeps(s, e);
    case DispatchCheck(_) => LocalKeeps(s, e);
    case DispatchArm => LocalKeeps(s, e);
    case DispatchInsert => InsertKeeps(s);
    case HandlerEnter(_) => LookKeeps(s, e);
    case HandlerLeave => HandlerKeeps(s);
    case WorkerDequeue => DequeueKeeps(s);
    case WorkerClaim => WorkerKeeps(s, e);
    case WorkerFinish(_) => WorkerKeeps(s, e);
    case Stop => LookKeeps(s, e);
  }

  // Steps that change one request, and the lock at most.
  lemma LocalKeeps(s: Sys, e: Event)
    requires Inv(s) && Enabled(s, e) && (e.Cancel? || e.DispatchCheck? || e.DispatchArm?)
    ensures Inv(Apply(s, e))
  {
    var s' := Apply(s, e);
    forall i | i in s'.irps
      ensures IrpOk(s', i)
    {
      assert IrpOk(s, i);
    }
  }

  // Steps that change no request.
  lemma LookKeeps(s: Sys, e: Event)
    requires Inv(s) && Enabled(s, e) && (e.HandlerEnter? || e.Stop?)
    ensures Inv(Apply(s, e))
  {
    var s' := Apply(s, e);
    forall i | i in s'.irps
      ensures IrpOk(s', i)
    {
      assert IrpOk(s, i);
    }
  }

  lemma WorkerKeeps(s: Sys, e: Event)
    requires Inv(s) && Enabled(s, e) && (e.WorkerClaim? || e.WorkerFinish?)
    ensures Inv(Apply(s, e))
  {
    var s' := Apply(s, e);
    assert IrpOk(s, s.worker.irp);
    forall i | i in s'.irps
      ensures IrpOk(s', i)
    {
      assert IrpOk(s, i);
    }
  }

  lemma InsertKeeps(s: Sys)
    requires Inv(s) && Enabled(s, DispatchInsert)
    ensures Inv(Apply(s, DispatchInsert))
  {
    var s' := Apply(s, DispatchInsert);
    assert IrpOk(s, s.lock.irp);
    forall i | i in s'.irps
      ensures IrpOk(s', i)
    {
      assert IrpOk(s, i);
    }
  }

  lemma HandlerKeeps(s: Sys)
    requires Inv(s) && Enabled(s, HandlerLeave)
    ensures Inv(Apply(s, HandlerLeave))
  {
    if s.lock.found {
      HandlerCompletes(s);
    } else {
      HandlerArms(s);
    }
  }

  lemma HandlerCompletes(s: Sys)
    requires Inv(s) && Enabled(s, HandlerLeave) && s.lock.found
    ensures Inv(Apply(s, HandlerLeave))
  {
    var s' := Apply(s, HandlerLeave);
    WithoutDistinct(s.queue, s.lock.irp);
    assert forall k :: 0 <= k < |s'.queue| ==> s'.queue[k] in s.queue;
    forall i | i in s'.irps
      ensures IrpOk(s', i)
    {
      assert IrpOk(s, i);
    }
  }

  lemma HandlerArms(s: Sys)
    requires Inv(s) && Enabled(s, HandlerLeave) && !s.lock.found
    ensures Inv(Apply(s, HandlerLeave))
  {
    var s' := Apply(s, HandlerLeave);
    forall i | i in s'.irps
      ensures IrpOk(s', i)
    {
      assert IrpOk(s, i);
    }
  }

  lemma DequeueKeeps(s: Sys)
    requires Inv(s) && Enabled(s, WorkerDequeue)
    ensures Inv(Apply(s, WorkerDequeue))
  {
    var s' := Apply(s, WorkerDequeue);
    assert forall x :: x in s.queue <==> x == s.queue[0] || x in s.queue[1..];
    assert s.queue[0] !in s.queue[1..];
    forall i | i in s'.irps
      ensures IrpOk(s', i)
    {
      assert IrpOk(s, i);
    }
  }

  // ------------------------------------------------------------------------
  // Runs

  ghost predicate Follows(states: seq<Sys>, events: seq<Event>) {
    && |states| == |events| + 1
    && forall k :: 0 <= k < |events| ==> Enabled(states[k], events[k]) && states[k + 1] == Apply(states[k], events[k])
  }

  lemma {:induction false} RunKeepsInv(states: seq<Sys>, events: seq<Event>, n: nat)
    requires Follows(states, events) && Init(states[0]) && n < |states|
    ensures Inv(states[n])
  {
    if n > 0 {
      RunKeepsInv(states, events, n - 1);
      StepKeepsInv(states[n - 1], events[n - 1]);
      assert states[n - 1 + 1] == Apply(states[n - 1], events[n - 1]);
    }
  }

  /** In every run, at every moment, a request has been completed at most once; once
      completed, it is not in the queue, no cancel routine will run for it and
      the worker does not have it. */
  lemma CompletedAtMostOnce(states: seq<Sys>, events: seq<Event>, n: nat, i: nat)
    requires Follows(states, events) && Init(states[0]) && n < |states| && i in states[n].irps
    ensures var s := states[n];
      && s.irps[i].completed <= 1
      && (s.irps[i].completed == 1 ==> !Held(s, i) && !s.irps[i].routine && s.irps[i].handlers == 0)
  {
    RunKeepsInv(states, events, n);
    assert IrpOk(states[n], i);
  }

  /** A request is completed by exactly these steps: its dispatch, when it was cancelled
      before; its cancel routine, when that found it in the queue; and the worker, which
      claimed it, unless it is left pending. */
  lemma CompletedExactlyBy(s: Sys, e: Event, i: nat)
    requires Inv(s) && Enabled(s, e) && i in s.irps
    ensures i in Apply(s, e).irps
    ensures Apply(s, e).irps[i].completed == s.irps[i].completed + if Completes(s, e, i) then 1 else 0
    ensures Completes(s, e, i) ==> s.irps[i].completed == 0 && i !in Apply(s, e).queue
  {
    assert IrpOk(s, i);
    if e.HandlerLeave? {
      WithoutDistinct(s.queue, s.lock.irp);
    }
  }

  ghost predicate Completes(s: Sys, e: Event, i: nat)
    requires Enabled(s, e) && i in s.irps
  {
    || (e == DispatchCheck(i) && s.irps[i].cancel)
    || (e.HandlerLeave? && s.lock == Cancelling(i, true))
    || (e == WorkerFinish(false) && s.worker == Claimed(i))
  }

  /** The right to complete a request is made when its cancel routine is first set, or it is
      completed at once; it is given up when the worker leaves it pending; otherwise it
      is handed on, never doubled and never lost. */
  lemma TokenHandedOn(s: Sys, e: Event, i: nat)
    requires Inv(s) && Enabled(s, e) && i in s.irps
    ensures i in Apply(s, e).irps
    ensures Tokens(Apply(s, e), i) == Tokens(s, i)
      + (if (e.DispatchArm? && s.lock.irp == i) || (e == DispatchCheck(i) && s.irps[i].cancel) then 1 else 0)
      - (if e == WorkerFinish(true) && s.worker == Claimed(i) then 1 else 0)
  {
    assert IrpOk(s, i);
  }

  /** A request is marked cancelled by its cancellation alone, and for good; then its dispatch
      completes it. Once stopped the worker takes nothing more. */
  lemma CancelledForGood(s: Sys, e: Event, i: nat)
    requires Enabled(s, e) && i in s.irps
    ensures i in Apply(s, e).irps
    ensures Apply(s, e).irps[i].cancel <==> s.irps[i].cancel || e == Cancel(i)
    ensures Apply(s, e).stopped <==> s.stopped || e.Stop?
    ensures s.stopped ==> !e.WorkerDequeue?
  {
  }

  // Request i is ahead of request j.
  ghost predicate Ahead(queue: seq<nat>, i: nat, j: nat) {
    exists a, b :: 0 <= a < b < |queue| && queue[a] == i && queue[b] == j
  }

  /** Requests wait in order: none overtakes another, and the worker takes only the one
      that nothing is ahead of. */
  lemma OrderKept(s: Sys, e: Event, i: nat, j: nat)
    requires Inv(s) && Enabled(s, e) && Ahead(s.queue, i, j)
    ensures var s' := Apply(s, e);
      && (i in s'.queue && j in s'.queue ==> Ahead(s'.queue, i, j))
      && (s'.worker == Unlinked(j) ==> s.worker == Unlinked(j))
  {
    var a, b :| 0 <= a < b < |s.queue| && s.queue[a] == i && s.queue[b] == j;
    var s' := Apply(s, e);
    assert j != s.queue[0];
    match e
    case DispatchInsert =>
      AheadAt(s'.queue, a, b);
    case WorkerDequeue =>
      DequeueOrder(s.queue, a, b);
    case HandlerLeave =>
      if s.lock.found {
        RemovalOrder(s.queue, s.lock.irp, a, b);
      }
    case _ =>
  }

  lemma RemovalOrder(queue: seq<nat>, x: nat, a: nat, b: nat)
    requires a < b < |queue| && forall j, k :: 0 <= j < k < |queue| ==> queue[j] != queue[k]
    ensures queue[a] in Without(queue, x) && queue[b] in Without(queue, x) ==> Ahead(Without(queue, x), queue[a], queue[b])
  {
    WithoutDistinct(queue, x);
    WithoutOrder(queue, x, a, b);
  }

  lemma AheadAt(queue: seq<nat>, a: nat, b: nat)
    requires a < b < |queue|
    ensures Ahead(queue, queue[a], queue[b])
  {
  }

  lemma DequeueOrder(queue: seq<nat>, a: nat, b: nat)
    requires a < b < |queue| && forall j, k :: 0 <= j < k < |queue| ==> queue[j] != queue[k]
    ensures queue[a] in queue[1..] ==> Ahead(queue[1..], queue[a], queue[b])
  {
    if a > 0 {
      AheadAt(queue[1..], a - 1, b - 1);
    }
  }

  lemma {:induction false} WithoutOrder(queue: seq<nat>, x: nat, a: nat, b: nat)
    requires a < b < |queue|
    requires forall j, k :: 0 <= j < k < |queue| ==> queue[j] != queue[k]
    ensures queue[a] != x && queue[b] != x ==> Ahead(Without(queue, x), queue[a], queue[b])
  {
    if queue[a] != x && queue[b] != x {
      var tail := queue[1..];
      if queue[0] == x {
        AheadAt(tail, a - 1, b - 1);
      } else if a > 0 {
        WithoutOrder(tail, x, a - 1, b - 1);
        AheadBehind(queue[0], Without(tail, x), tail[a - 1], tail[b - 1]);
      } else {
        WithoutDistinct(tail, x);
        assert tail[b - 1] in tail;
        FirstAhead(queue[0], Without(tail, x), queue[b]);
      }
    }
  }

  lemma AheadBehind(first: nat, rest: seq<nat>, i: nat, j: nat)
    requires Ahead(rest, i, j)
    ensures Ahead([first] + rest, i, j)
  {
    var a, b :| 0 <= a < b < |rest| && rest[a] == i && rest[b] == j;
    AheadAt([first] + rest, a + 1, b + 1);
  }

  lemma FirstAhead(first: nat, rest: seq<nat>, j: nat)
    requires j in rest
    ensures Ahead([first] + rest, first, j)
  {
    var b :| 0 <= b < |rest| && rest[b] == j;
    AheadAt([first] + rest, 0, b + 1);
  }

  // ------------------------------------------------------------------------
  // Requests that are never completed

  /** Dispatched, not completed, and nobody has hold of it. */
  ghost predicate Abandoned(s: Sys, i: nat) {
    && i in s.irps && s.irps[i].dispatched && s.irps[i].completed == 0
    && !Held(s, i)
    && (s.lock.Cancelling? && s.lock.irp == i ==> !s.lock.found)
  }

  /** When the worker has unlinked a request, its exchange abandons it if, and only if, a
      cancel routine has been called for it and has not set itself again. */
  lemma ClaimAbandonsIffCancelled(s: Sys, i: nat)
    requires Inv(s) && s.worker == Unlinked(i)
    ensures Abandoned(Apply(s, WorkerClaim), i) <==> !s.irps[i].routine
  {
    assert IrpOk(s, i);
  }

  lemma StepKeepsAbandoned(s: Sys, e: Event, i: nat)
    requires Inv(s) && Enabled(s, e) && Abandoned(s, i)
    ensures Abandoned(Apply(s, e), i)
  {
    assert IrpOk(s, i);
    if e.HandlerLeave? {
      WithoutDistinct(s.queue, s.lock.irp);
    }
  }

  /** An abandoned request stays so in every continuation: it is never completed. */
  lemma {:induction false} AbandonedForever(states: seq<Sys>, events: seq<Event>, k: nat, n: nat, i: nat)
    requires Follows(states, events) && Init(states[0]) && k <= n < |states| && Abandoned(states[k], i)
    ensures Abandoned(states[n], i) && states[n].irps[i].completed == 0
    decreases n - k
  {
    if k < n {
      AbandonedForever(states, events, k, n - 1, i);
      RunKeepsInv(states, events, n - 1);
      StepKeepsAbandoned(states[n - 1], events[n - 1], i);
      assert states[n - 1 + 1] == Apply(states[n - 1], events[n - 1]);
    }
  }

  const NEW := Irp(false, false, 0, 0, false)
  const CHECKED := Irp(false, false, 0, 0, true)
  const ARMED := Irp(false, true, 0, 0, true)
  const CANCELLED := Irp(true, false, 1, 0, true)

  /** Such a run: the request is cancelled just as the worker takes it off the queue. */
  lemma CancelledRequestAbandoned() returns (states: seq<Sys>, events: seq<Event>)
    ensures Follows(states, events) && Init(states[0])
    ensures Abandoned(states[|events|], 0) && states[|events|].irps[0].cancel
  {
    var a, ea := RequestQueued();
    var b, eb := RequestDropped();
    states, events := a + b[1..], ea + eb;
    forall k | 0 <= k < |events|
      ensures Enabled(states[k], events[k]) && states[k + 1] == Apply(states[k], events[k])
    {
      if k >= |ea| {
        assert states[k] == b[k - |ea|] && states[k + 1] == b[k - |ea| + 1];
      }
    }
  }

  lemma RequestQueued() returns (states: seq<Sys>, events: seq<Event>)
    ensures Follows(states, events) && |events| == 3 && Init(states[0])
    ensures states[3] == Sys(map[0 := ARMED], [0], Free, Idle, false)
  {
    var s0 := Sys(map[0 := NEW], [], Free, Idle, false);
    var s1 := Sys(map[0 := CHECKED], [], Dispatching(0, false), Idle, false);
    var s2 := Sys(map[0 := ARMED], [], Dispatching(0, true), Idle, false);
    var s3 := Sys(map[0 := ARMED], [0], Free, Idle, false);
    states := [s0, s1, s2, s3];
    events := [DispatchCheck(0), DispatchArm, DispatchInsert];
    assert Apply(s0, events[0]) == s1;
    assert Apply(s1, events[1]) == s2;
    assert Apply(s2, events[2]) == s3;
  }

  lemma RequestDropped() returns (states: seq<Sys>, events: seq<Event>)
    ensures Follows(states, events) && |events| == 3
    ensures states[0] == Sys(map[0 := ARMED], [0], Free, Idle, false)
    ensures states[3] == Sys(map[0 := CANCELLED], [], Free, Idle, false)
  {
    var s0 := Sys(map[0 := ARMED], [0], Free, Idle, false);
    var s1 := Sys(map[0 := CANCELLED], [0], Free, Idle, false);
    var s2 := Sys(map[0 := CANCELLED], [], Free, Unlinked(0), false);
    var s3 := Sys(map[0 := CANCELLED], [], Free, Idle, false);
    states := [s0, s1, s2, s3];
    events := [Cancel(0), WorkerDequeue, WorkerClaim];
    assert Apply(s0, events[0]) == s1;
    assert Apply(s1, events[1]) == s2;
    assert Apply(s2, events[2]) == s3;
  }

  // ------------------------------------------------------------------------
  // The list itself

  class DispatchQueue {
    var queue: seq<nat>

    constructor ()
      ensures queue == []
    {
      queue := [];
    }

    /** QCFLT_IsIrpInQueue walks the list. */
    method IsIrpInQueue(irp: nat) returns (found: bool)
      ensures found <==> irp in queue
    {
      var k := 0;
      found := false;
      while k < |queue| && !found
        invariant k <= |queue|
        invariant found <==> irp in queue[..k]
        decreases |queue| - k, !found
      {
        if queue[k] == irp {
          found := true;
        }
        k := k + 1;
      }
    }

    method InsertTail(irp: nat)
      modifies this
      ensures queue == old(queue) + [irp]
    {
      queue := queue + [irp];
    }

    /** RemoveEntryList on the request's own entry, which must be linked. */
    method RemoveEntry(irp: nat)
      requires irp in queue
      modifies this
      ensures queue == Without(old(queue), irp)
    {
      var k := 0;
      while queue[k] != irp
        invariant k < |queue| && irp in queue[k..] && irp !in queue[..k] && queue == old(queue)
        decreases |queue| - k
      {
        k := k + 1;
      }
      WithoutFirst(queue, irp, k);
      queue := queue[..k] + queue[k + 1..];
    }
  }
}
