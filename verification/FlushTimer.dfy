// The restartable timer that flushes an aggregate nobody completes
// (src/linux/qcom_usbnet/qcom_usbnet_main.c: cdc_ncm_tx_timeout_start,
// cdc_ncm_tx_timer_cb, cdc_ncm_txpath_bh, GobiNetDriver_tx_fixup).
module FlushTimer {
  import opened Bytes
  import opened Aggregator

  // The timer's callback: not running, running, or past its call of tasklet_schedule,
  // which either set the tasklet's bit or found it set (or left it, when stopped).
  datatype Callback = Out | Entered | Past(setBit: bool)

  // The tasklet: not running, running with its bit cleared, or past its lock and about to flush.
  datatype Tasklet = Idle | Started | Flushing

  /** The aggregation context, its timer and tasklet, and the two flags that keep them from acting. */
  datatype Timer = Timer(
    ctx: Ctx,
    armed: bool,         // the hrtimer is queued
    callback: Callback,
    scheduled: bool,     // the tasklet's bit is set
    tasklet: Tasklet,
    stop: bool,
    ready: bool)         // mbQMIReadyStatus

  datatype Event =
    | Send(skb: Skb, alloc: bool)
    | Expire                      // the timer fires and enters cdc_ncm_tx_timer_cb
    | Schedules                   // which calls tasklet_schedule, unless stopped
    | Returns
    | Starts                      // the tasklet runs
    | Section                     // the locked part of cdc_ncm_txpath_bh
    | Flush(alloc: bool)          // usbnet_start_xmit(NULL)
    | Stop
    | Ready(ready: bool)

  /** A tasklet runs on the processor that set its bit. So it cannot start before the
      callback that set it has returned; but it can beside one that found the bit set. */
  ghost predicate Enabled(t: Timer, e: Event) {
    match e
    case Expire => t.armed && t.callback.Out?
    case Schedules => t.callback.Entered?
    case Returns => t.callback.Past?
    case Starts => t.scheduled && t.tasklet.Idle? && t.callback != Past(true)
    case Section => t.tasklet.Started?
    case Flush(_) => t.tasklet.Flushing?
    case _ => true
  }

  // cdc_ncm_tx_timeout_start; hrtimer_active holds until the callback has returned.
  function TimeoutStart(t: Timer): Timer {
    if !(t.armed || !t.callback.Out?) && !t.stop then t.(armed := true) else t
  }

  predicate HasFrames(c: Ctx) {
    c.cur.Some? && c.num > 0
  }

  // GobiNetDriver_tx_fixup: aggr_tx_frame with its timer, unless the device is not ready.
  function TxFixup(cfg: Config, t: Timer, skb: Option<Skb>, alloc: bool): (Timer, Option<seq<Skb>>) {
    if !t.ready then (t, None)
    else
      var (c, out) := AggrTxFrame(cfg, t.ctx, skb, alloc);
      if out.None? && HasFrames(c) then (TimeoutStart(t.(ctx := c)), None) else (t.(ctx := c), out)
  }

  function Apply(cfg: Config, t: Timer, e: Event): (Timer, Option<seq<Skb>>) {
    match e
    case Send(skb, alloc) => TxFixup(cfg, t, Some(skb), alloc)
    case Expire => (t.(armed := false, callback := Entered), None)
    case Schedules => (t.(callback := Past(!t.stop && !t.scheduled), scheduled := t.scheduled || !t.stop), None)
    case Returns => (t.(callback := Out), None)
    case Starts => (t.(scheduled := false, tasklet := Started), None)
    case Section =>
      if t.ctx.pending != 0
      then (TimeoutStart(t.(tasklet := Idle, ctx := t.ctx.(pending := t.ctx.pending - 1))), None)
      else (t.(tasklet := Flushing), None)
    case Flush(alloc) => TxFixup(cfg, t.(tasklet := Idle), None, alloc)
    case Stop => (t.(stop := true), None)
    case Ready(b) => (t.(ready := b), None)
  }

  /** The timer or the tasklet will look at the aggregate again. */
  predicate Coming(t: Timer) {
    t.armed || t.callback.Entered? || t.scheduled || !t.tasklet.Idle?
  }

  /** An aggregate with frames in it will be looked at again. */
  ghost predicate Guarded(cfg: Config, t: Timer) {
    && Consistent(cfg, t.ctx)
    && t.ctx.pending <= TIMER_PENDING_CNT
    && !(t.armed && !t.callback.Out?)
    && (t.callback == Past(true) ==> t.scheduled)
    && (!t.stop && HasFrames(t.ctx) ==> Coming(t))
  }

  // Nothing is on its way but this tasklet run, if it is one.
  predicate NothingElse(t: Timer) {
    !t.stop && !t.armed && !t.callback.Entered? && !t.scheduled
  }

  /** The tasklet's flush finds the device not ready, and nothing else is on its way. */
  ghost predicate FlushRefused(t: Timer, e: Event) {
    e.Flush? && !t.ready && HasFrames(t.ctx) && NothingElse(t)
  }

  // The step calls cdc_ncm_tx_timeout_start for frames that wait, and is the end of its caller.
  ghost predicate StartsForFrames(cfg: Config, t: Timer, e: Event) {
    match e
    case Send(skb, alloc) =>
      var (c, out) := AggrTxFrame(cfg, t.ctx, Some(skb), alloc);
      t.ready && t.tasklet.Idle? && out.None? && HasFrames(c)
    case Section => t.ctx.pending != 0 && HasFrames(t.ctx)
    case _ => false
  }

  /** The timer is not started because its callback, which found the tasklet's bit set, has
      not returned; and nothing else is on its way. */
  ghost predicate StartMissed(cfg: Config, t: Timer, e: Event) {
    StartsForFrames(cfg, t, e) && t.callback.Past? && NothingElse(t)
  }

  // A flush never leaves frames waiting.
  lemma FlushLeavesNoFrames(cfg: Config, c: Ctx, alloc: bool)
    requires Consistent(cfg, c)
    ensures var (c', out) := AggrTxFrame(cfg, c, None, alloc);
      !HasFrames(c') && c'.pending == c.pending && (HasFrames(c) ==> out.Some? && c.cur.value <= out.value)
  {
    var p := Start(cfg, c, None);
    PackKeeps(cfg, p);
    PackExtends(cfg, p);
  }

  lemma {:induction false} PackExtends(cfg: Config, p: Packing)
    ensures p.out <= Pack(cfg, p).out && p.n <= Pack(cfg, p).n
    decreases cfg.maxFrames - p.n
  {
    if p.n < cfg.maxFrames && Turn(p).1 {
      PackExtends(cfg, Turn(p).0);
    }
  }

  /** Every step keeps the aggregate guarded, except exactly a refused flush and a missed start. */
  lemma StepGuards(cfg: Config, t: Timer, e: Event)
    requires Guarded(cfg, t) && Enabled(t, e)
    ensures Guarded(cfg, Apply(cfg, t, e).0) <==> !FlushRefused(t, e) && !StartMissed(cfg, t, e)
  {
    match e
    case Send(skb, alloc) => SendGuards(cfg, t, skb, alloc);
    case Flush(alloc) => FlushGuards(cfg, t, alloc);
    case _ =>
  }

  lemma SendGuards(cfg: Config, t: Timer, skb: Skb, alloc: bool)
    requires Guarded(cfg, t)
    ensures Guarded(cfg, TxFixup(cfg, t, Some(skb), alloc).0) <==> !StartMissed(cfg, t, Send(skb, alloc))
  {
    StepAccounts(cfg, t.ctx, Some(skb), alloc);
    SentLeavesNone(cfg, t.ctx, Some(skb), alloc);
  }

  lemma SentLeavesNone(cfg: Config, c: Ctx, skb: Option<Skb>, alloc: bool)
    ensures AggrTxFrame(cfg, c, skb, alloc).1.Some? ==> AggrTxFrame(cfg, c, skb, alloc).0.cur.None?
    ensures AggrTxFrame(cfg, c, skb, alloc).0.pending in {c.pending, TIMER_PENDING_CNT}
  {
  }

  lemma FlushGuards(cfg: Config, t: Timer, alloc: bool)
    requires Guarded(cfg, t) && Enabled(t, Flush(alloc))
    ensures Guarded(cfg, Apply(cfg, t, Flush(alloc)).0) <==> !FlushRefused(t, Flush(alloc))
  {
    if t.ready {
      StepAccounts(cfg, t.ctx, None, alloc);
      FlushLeavesNoFrames(cfg, t.ctx, alloc);
    }
  }

  // The two flags are set by their own events alone.
  lemma FlagsSetAlone(cfg: Config, t: Timer, e: Event)
    requires Enabled(t, e)
    ensures Apply(cfg, t, e).0.stop <==> t.stop || e.Stop?
    ensures Apply(cfg, t, e).0.ready <==> if e.Ready? then e.ready else t.ready
  {
  }

  /** Once stopped, nothing starts the timer or schedules the tasklet any more. */
  lemma StoppedStartsNothing(cfg: Config, t: Timer, e: Event)
    requires t.stop && Enabled(t, e)
    ensures var t' := Apply(cfg, t, e).0;
      && t'.stop
      && (t'.armed ==> t.armed) && (t'.scheduled ==> t.scheduled)
      && (t'.callback.Entered? ==> t.armed || t.callback.Entered?)
      && (!t'.tasklet.Idle? ==> t.scheduled || !t.tasklet.Idle?)
  {
  }

  // States and events of a run.
  ghost predicate IsRun(cfg: Config, states: seq<Timer>, events: seq<Event>) {
    && |states| == |events| + 1
    && states[0].ctx == INITIAL
    && !states[0].armed && states[0].callback == Out && !states[0].scheduled && states[0].tasklet == Idle
    && forall i :: 0 <= i < |events| ==> Steps(cfg, states[i], events[i], states[i + 1])
  }

  ghost predicate Steps(cfg: Config, t: Timer, e: Event, t': Timer) {
    Enabled(t, e) && t' == Apply(cfg, t, e).0
  }

  ghost predicate Slips(cfg: Config, t: Timer, e: Event) {
    FlushRefused(t, e) || StartMissed(cfg, t, e)
  }

  /** A waiting aggregate is guarded throughout a run, and the pending count within its
      limit, if and only if no flush in it is refused and no start missed. */
  lemma RunGuards(cfg: Config, states: seq<Timer>, events: seq<Event>)
    requires IsRun(cfg, states, events)
    ensures (forall i :: 0 <= i < |states| ==> Guarded(cfg, states[i]))
      <==> (forall i :: 0 <= i < |events| ==> !Slips(cfg, states[i], events[i]))
  {
    if forall i :: 0 <= i < |events| ==> !Slips(cfg, states[i], events[i]) {
      forall i | 0 <= i < |states|
        ensures Guarded(cfg, states[i])
      {
        RunReachesGuarded(cfg, states, events, i);
      }
    } else {
      var i :| 0 <= i < |events| && Slips(cfg, states[i], events[i]);
      assert Steps(cfg, states[i], events[i], states[i + 1]);
      if Guarded(cfg, states[i]) {
        StepGuards(cfg, states[i], events[i]);
      }
      assert !Guarded(cfg, states[i]) || !Guarded(cfg, states[i + 1]);
    }
  }

  lemma {:induction false} RunReachesGuarded(cfg: Config, states: seq<Timer>, events: seq<Event>, n: nat)
    requires IsRun(cfg, states, events) && n < |states|
    requires forall i :: 0 <= i < n ==> !Slips(cfg, states[i], events[i])
    ensures Guarded(cfg, states[n])
  {
    if n > 0 {
      RunReachesGuarded(cfg, states, events, n - 1);
      assert Steps(cfg, states[n - 1], events[n - 1], states[n - 1 + 1]);
      StepGuards(cfg, states[n - 1], events[n - 1]);
    }
  }

  // ------------------------------------------------------------------------
  // With no new frames

  /** A waiting aggregate on a device that goes on working, whatever its timer and
      tasklet are doing at the moment. */
  ghost predicate Live(cfg: Config, t: Timer) {
    Guarded(cfg, t) && !t.stop && t.ready && HasFrames(t.ctx)
  }

  predicate Ticks(e: Event) {
    e.Expire? || e.Schedules? || e.Returns? || e.Starts? || e.Section?
  }

  // Events of timer and tasklet, in any order that they can happen in, short of the flush.
  ghost predicate TickRun(cfg: Config, t: Timer, events: seq<Event>)
    decreases |events|
  {
    events == [] ||
      (Ticks(events[0]) && Enabled(t, events[0]) && TickRun(cfg, Apply(cfg, t, events[0]).0, events[1..]))
  }

  function After(cfg: Config, t: Timer, events: seq<Event>): Timer
    decreases |events|
  {
    if events == [] then t else After(cfg, Apply(cfg, t, events[0]).0, events[1..])
  }

  // Some step of the run misses a start.
  ghost predicate Misses(cfg: Config, t: Timer, events: seq<Event>)
    decreases |events|
  {
    events != [] && (StartMissed(cfg, t, events[0]) || Misses(cfg, Apply(cfg, t, events[0]).0, events[1..]))
  }

  function Expiries(events: seq<Event>): nat {
    if events == [] then 0 else (if events[0].Expire? then 1 else 0) + Expiries(events[1..])
  }

  // How often the timer can still expire before the flush.
  function Budget(t: Timer): nat {
    if t.tasklet.Flushing? then if t.armed then 1 else 0
    else if t.armed then t.ctx.pending + 1
    else t.ctx.pending
  }

  // How many events of any kind can still happen before the flush.
  function Work(t: Timer): nat {
    8 * Budget(t) + (match t.callback case Out => 0 case Entered => 4 case Past(_) => 1)
    + (if t.scheduled then 2 else 0) + if t.tasklet.Started? then 1 else 0
  }

  /** A waiting aggregate that nothing will look at again. */
  ghost predicate Stranded(t: Timer) {
    !t.stop && t.ready && HasFrames(t.ctx) && !Coming(t)
  }

  lemma TickStep(cfg: Config, t: Timer, e: Event)
    requires Live(cfg, t) && Ticks(e) && Enabled(t, e)
    ensures var (t', out) := Apply(cfg, t, e);
      && out.None? && t'.ctx.cur == t.ctx.cur
      && (if StartMissed(cfg, t, e) then Stranded(t') else Live(cfg, t'))
      && Budget(t') + (if e.Expire? then 1 else 0) <= Budget(t)
      && Work(t') < Work(t)
  {
    StepGuards(cfg, t, e);
  }

  // Nothing but the callback's return is left to happen.
  lemma {:induction false} StrandedStays(cfg: Config, t: Timer, events: seq<Event>)
    requires Stranded(t) && TickRun(cfg, t, events)
    ensures var t' := After(cfg, t, events); Stranded(t') && t'.ctx.cur == t.ctx.cur
    ensures Expiries(events) == 0 && |events| <= (if t.callback.Past? then 1 else 0)
    decreases |events|
  {
    if events != [] {
      StrandedStays(cfg, Apply(cfg, t, events[0]).0, events[1..]);
    }
  }

  /** With no new frames an aggregate goes out within tx_timer_pending + 1 expiries, from
      whatever state timer and tasklet are in and in whatever order they act, unless a
      start is missed. Until the flush its frames are held and only so many things can happen.
      A flush can still come exactly if no start was missed; then something
      can always happen, and the flush sends the frames. */
  lemma {:induction false} GoesOutInTime(cfg: Config, t: Timer, events: seq<Event>, alloc: bool)
    requires Live(cfg, t) && TickRun(cfg, t, events)
    ensures Expiries(events) <= t.ctx.pending + 1
    ensures Expiries(events) <= Budget(t) && |events| <= Work(t)
    ensures var t' := After(cfg, t, events);
      && t'.ctx.cur == t.ctx.cur
      && (Misses(cfg, t, events) <==> Stranded(t'))
      && (!Misses(cfg, t, events) ==>
            Live(cfg, t') && exists e :: Enabled(t', e) && (Ticks(e) || e == Flush(alloc)))
      && (Enabled(t', Flush(alloc)) ==>
            Apply(cfg, t', Flush(alloc)).1.Some? && t.ctx.cur.value <= Apply(cfg, t', Flush(alloc)).1.value)
    decreases |events|
  {
    if events == [] {
      SomethingHappens(cfg, t, alloc);
      FlushLeavesNoFrames(cfg, t.ctx, alloc);
    } else {
      TickStep(cfg, t, events[0]);
      var t1 := Apply(cfg, t, events[0]).0;
      if StartMissed(cfg, t, events[0]) {
        StrandedStays(cfg, t1, events[1..]);
      } else {
        GoesOutInTime(cfg, t1, events[1..], alloc);
      }
    }
  }

  lemma SomethingHappens(cfg: Config, t: Timer, alloc: bool)
    requires Live(cfg, t)
    ensures exists e :: Enabled(t, e) && (Ticks(e) || e == Flush(alloc))
  {
    var e :=
      if t.tasklet.Flushing? then Flush(alloc)
      else if t.tasklet.Started? then Section
      else if t.callback.Entered? then Schedules
      else if t.callback.Past? then Returns
      else if t.armed then Expire
      else Starts;
    assert Enabled(t, e);
  }

  // ------------------------------------------------------------------------
  // With new frames coming in

  /** Timer, tasklet and new frames, in any order, until the aggregate goes out. */
  ghost predicate HeldRun(cfg: Config, t: Timer, events: seq<Event>)
    decreases |events|
  {
    events == [] ||
      (&& Enabled(t, events[0]) && (Ticks(events[0]) || (events[0].Send? && Apply(cfg, t, events[0]).1.None?))
       && HeldRun(cfg, Apply(cfg, t, events[0]).0, events[1..]))
  }

  function Sections(events: seq<Event>): nat {
    if events == [] then 0 else (if events[0].Section? then 1 else 0) + Sections(events[1..])
  }

  // An expiry that finds the tasklet neither scheduled nor running.
  predicate IsLone(t: Timer, e: Event) {
    e.Expire? && !t.scheduled && t.tasklet.Idle?
  }

  function LoneExpiries(cfg: Config, t: Timer, events: seq<Event>): nat
    decreases |events|
  {
    if events == [] then 0
    else (if IsLone(t, events[0]) then 1 else 0) + LoneExpiries(cfg, Apply(cfg, t, events[0]).0, events[1..])
  }

  // How many runs of the tasklet, and lone expiries, are left before the flush.
  function Turns(t: Timer): nat {
    if t.tasklet.Flushing? then 0 else t.ctx.pending + 1
  }

  function LoneBudget(t: Timer): nat {
    if t.tasklet.Flushing? then 0
    else if t.scheduled || t.tasklet.Started? || t.callback.Entered? then t.ctx.pending
    else t.ctx.pending + 1
  }

  // At least two frames wait on a working device.
  ghost predicate Filling(cfg: Config, t: Timer) {
    Consistent(cfg, t.ctx) && !t.stop && t.ready && t.ctx.cur.Some? && t.ctx.num >= 2
  }

  // A frame that does not send the aggregate joins it.
  lemma SendGrows(cfg: Config, c: Ctx, skb: Skb, alloc: bool)
    requires Consistent(cfg, c) && c.cur.Some? && c.num >= 1
    requires AggrTxFrame(cfg, c, Some(skb), alloc).1.None?
    ensures var c' := AggrTxFrame(cfg, c, Some(skb), alloc).0;
      c'.cur.Some? && c.cur.value <= c'.cur.value && |c'.cur.value| >= |c.cur.value| + 1
  {
    var p := Start(cfg, c, Some(skb));
    assert p.out <= Turn(p).0.out;
    PackExtends(cfg, Turn(p).0);
    AfterPacking(cfg, c, Some(skb));
  }

  lemma SendFills(cfg: Config, t: Timer, skb: Skb, alloc: bool)
    requires Filling(cfg, t) && Apply(cfg, t, Send(skb, alloc)).1.None?
    ensures var t' := Apply(cfg, t, Send(skb, alloc)).0;
      && Filling(cfg, t') && t.ctx.cur.value <= t'.ctx.cur.value && t'.ctx.pending == t.ctx.pending
      && t' == t.(ctx := t'.ctx, armed := t'.armed)
  {
    SendGrows(cfg, t.ctx, skb, alloc);
    WaitsConsistent(cfg, t.ctx, skb, alloc);
  }

  lemma WaitsConsistent(cfg: Config, c: Ctx, skb: Skb, alloc: bool)
    requires Consistent(cfg, c)
    ensures var c' := AggrTxFrame(cfg, c, Some(skb), alloc).0;
      && Consistent(cfg, c')
      && (c'.cur.Some? && |c'.cur.value| >= 3 ==> c'.pending == c.pending)
  {
    StepAccounts(cfg, c, Some(skb), alloc);
    WaitsOnly(cfg, c, Some(skb), alloc);
  }

  lemma HeldStep(cfg: Config, t: Timer, e: Event)
    requires Filling(cfg, t) && HeldRun(cfg, t, [e])
    ensures var t' := Apply(cfg, t, e).0;
      && Filling(cfg, t') && t.ctx.cur.value <= t'.ctx.cur.value
      && Turns(t') + (if e.Section? then 1 else 0) <= Turns(t)
      && LoneBudget(t') + (if IsLone(t, e) then 1 else 0) <= LoneBudget(t)
  {
    if e.Send? {
      SendFills(cfg, t, e.skb, e.alloc);
    }
  }

  /** Once two frames are held, new ones no longer put the flush off: whatever comes in and
      in whatever order things happen, the tasklet runs at most tx_timer_pending + 1
      times before it flushes, and the timer expires at most so often without finding it
      scheduled or running already. The frames held stay first in the aggregate; while
      no start is missed something can always happen, and the flush sends them. */
  lemma {:induction false} GoesOutDespiteSends(cfg: Config, t: Timer, events: seq<Event>, alloc: bool)
    requires Filling(cfg, t) && HeldRun(cfg, t, events)
    ensures Sections(events) <= Turns(t) <= t.ctx.pending + 1
    ensures LoneExpiries(cfg, t, events) <= LoneBudget(t) <= t.ctx.pending + 1
    ensures var t' := After(cfg, t, events);
      && Filling(cfg, t') && t.ctx.cur.value <= t'.ctx.cur.value
      && (Live(cfg, t) && !Misses(cfg, t, events) ==>
            Live(cfg, t') && exists e :: Enabled(t', e) && (Ticks(e) || e == Flush(alloc)))
      && (Enabled(t', Flush(alloc)) ==>
            Apply(cfg, t', Flush(alloc)).1.Some? && t.ctx.cur.value <= Apply(cfg, t', Flush(alloc)).1.value)
    decreases |events|
  {
    if events == [] {
      if Live(cfg, t) {
        SomethingHappens(cfg, t, alloc);
      }
      FlushLeavesNoFrames(cfg, t.ctx, alloc);
    } else {
      HeldStep(cfg, t, events[0]);
      if Live(cfg, t) && !StartMissed(cfg, t, events[0]) {
        StepGuards(cfg, t, events[0]);
      }
      GoesOutDespiteSends(cfg, Apply(cfg, t, events[0]).0, events[1..], alloc);
    }
  }

  /** Counting every expiry, more than tx_timer_pending + 1 can come first: a frame starts
      the timer again while the tasklet is already scheduled. */
  lemma ExpiriesBesideTasklet() returns (t: Timer, events: seq<Event>)
    ensures Filling(CFG, t) && Live(CFG, t) && t.ctx.pending == 0 && Resting(t)
    ensures HeldRun(CFG, t, events) && !Misses(CFG, t, events) && Expiries(events) == 2
  {
    ThirdFrame();
    TwoFramesCount();
    t := T0.(ctx := TWO.(pending := 0), armed := true);
    var t1 := t.(armed := false, callback := Entered);
    var t2 := t1.(callback := Past(true), scheduled := true);
    var t3 := t2.(callback := Out);
    var t4 := t3.(ctx := THREE, armed := true);
    var t5 := t4.(armed := false, callback := Entered);
    assert HeldRun(CFG, t5, []) && Apply(CFG, t4, Expire).0 == t5;
    HeldCons(CFG, t4, Expire, t5, []);
    HeldCons(CFG, t3, Send(FRAME, true), t4, [Expire]);
    HeldCons(CFG, t2, Returns, t3, [Send(FRAME, true), Expire]);
    HeldCons(CFG, t1, Schedules, t2, [Returns, Send(FRAME, true), Expire]);
    HeldCons(CFG, t, Expire, t1, [Schedules, Returns, Send(FRAME, true), Expire]);
    events := [Expire, Schedules, Returns, Send(FRAME, true), Expire];
    assert events == [Expire] + [Schedules, Returns, Send(FRAME, true), Expire];
    assert [Schedules, Returns, Send(FRAME, true), Expire] == [Schedules] + [Returns, Send(FRAME, true), Expire];
    assert [Returns, Send(FRAME, true), Expire] == [Returns] + [Send(FRAME, true), Expire];
    assert [Send(FRAME, true), Expire] == [Send(FRAME, true)] + [Expire];
    assert [Expire] == [Expire] + [];
  }

  lemma TwoFramesCount()
    ensures Size([FRAME, FRAME]) == 8 && Payload([FRAME, FRAME]) == 0
  {
    var two: seq<Skb> := [FRAME, FRAME];
    assert two[..1] == [FRAME] && two[..1][..0] == [];
    assert Size(two[..1]) == Size(two[..1][..0]) + 4 && Size(two) == Size(two[..1]) + 4;
    assert Payload1(FRAME) == 0;
    assert Payload(two[..1]) == Payload(two[..1][..0]) + 0 && Payload(two) == Payload(two[..1]) + 0;
  }

  lemma HeldCons(cfg: Config, t: Timer, e: Event, t': Timer, rest: seq<Event>)
    requires Steps(cfg, t, e, t') && (Ticks(e) || (e.Send? && Apply(cfg, t, e).1.None?)) && HeldRun(cfg, t', rest)
    requires !StartMissed(cfg, t, e) && !Misses(cfg, t', rest)
    ensures HeldRun(cfg, t, [e] + rest) && !Misses(cfg, t, [e] + rest)
    ensures Expiries([e] + rest) == (if e.Expire? then 1 else 0) + Expiries(rest)
  {
    assert ([e] + rest)[1..] == rest;
  }

  // Armed, with nothing else going on.
  ghost predicate Resting(t: Timer) {
    t.armed && t.callback.Out? && !t.scheduled && t.tasklet.Idle? && !t.stop && t.ready
  }

  const ROUND: seq<Event> := [Expire, Schedules, Returns, Starts, Section]

  // So many times the timer expires and its callback and tasklet follow at once.
  function Rounds(n: nat): seq<Event> {
    if n == 0 then [] else ROUND + Rounds(n - 1)
  }

  function AfterRound(t: Timer): Timer {
    if t.ctx.pending > 0 then t.(ctx := t.ctx.(pending := t.ctx.pending - 1))
    else t.(armed := false, tasklet := Flushing)
  }

  /** From rest and with nothing in between, it takes exactly that many. */
  lemma {:induction false} RestingTakesAll(cfg: Config, t: Timer, n: nat, alloc: bool)
    requires Resting(t) && n <= t.ctx.pending + 1
    ensures TickRun(cfg, t, Rounds(n))
    ensures Enabled(After(cfg, t, Rounds(n)), Flush(alloc)) <==> n == t.ctx.pending + 1
    decreases n
  {
    if n > 0 {
      if t.ctx.pending > 0 {
        RestingTakesAll(cfg, AfterRound(t), n - 1, alloc);
      } else {
        assert Rounds(n - 1) == [];
      }
      OneRound(cfg, t, Rounds(n - 1));
    }
  }

  lemma OneRound(cfg: Config, t: Timer, rest: seq<Event>)
    requires Resting(t) && TickRun(cfg, AfterRound(t), rest)
    ensures TickRun(cfg, t, ROUND + rest) && After(cfg, t, ROUND + rest) == After(cfg, AfterRound(t), rest)
  {
    var t1 := t.(armed := false, callback := Entered);
    var t2 := t1.(callback := Past(true), scheduled := true);
    var t3 := t2.(callback := Out);
    var t4 := t3.(scheduled := false, tasklet := Started);
    OneTick(cfg, t4, Section, AfterRound(t), rest);
    OneTick(cfg, t3, Starts, t4, [Section] + rest);
    OneTick(cfg, t2, Returns, t3, [Starts] + ([Section] + rest));
    OneTick(cfg, t1, Schedules, t2, [Returns] + ([Starts] + ([Section] + rest)));
    OneTick(cfg, t, Expire, t1, [Schedules] + ([Returns] + ([Starts] + ([Section] + rest))));
    assert ROUND + rest == [Expire] + ([Schedules] + ([Returns] + ([Starts] + ([Section] + rest))));
  }

  lemma OneTick(cfg: Config, t: Timer, e: Event, t': Timer, rest: seq<Event>)
    requires Ticks(e) && Steps(cfg, t, e, t') && TickRun(cfg, t', rest)
    ensures TickRun(cfg, t, [e] + rest) && After(cfg, t, [e] + rest) == After(cfg, t', rest)
  {
    assert ([e] + rest)[1..] == rest;
  }

  // ------------------------------------------------------------------------
  // A start is missed

  const CFG := Config(100, 10, 1)
  const FRAME: Skb := [0, 0x81, 0, 0]
  const ONE := INITIAL.(cur := Some([FRAME]), room := 96, num := 1, pending := 2)
  const TWO := INITIAL.(cur := Some([FRAME, FRAME]), room := 92, num := 2, pending := 2)

  const THREE := INITIAL.(cur := Some([FRAME, FRAME, FRAME]), room := 88, num := 3)

  const T0 := Timer(INITIAL, false, Out, false, Idle, false, true)
  const T1 := T0.(ctx := ONE, armed := true)
  const T2 := T0.(ctx := ONE, callback := Entered)
  const T3 := T0.(ctx := ONE, callback := Past(true), scheduled := true)
  const T4 := T0.(ctx := ONE, scheduled := true)
  const T5 := T0.(ctx := TWO, armed := true, scheduled := true)
  const T6 := T0.(ctx := TWO, callback := Entered, scheduled := true)
  const T7 := T0.(ctx := TWO, callback := Past(false), scheduled := true)
  const T8 := T0.(ctx := TWO, callback := Past(false), tasklet := Started)
  const T9 := T0.(ctx := TWO.(pending := 1), callback := Past(false))
  const T10 := T0.(ctx := TWO.(pending := 1))

  lemma FirstFrame()
    ensures AggrTxFrame(CFG, INITIAL, Some(FRAME), true) == (ONE, None)
  {
    var p := Start(CFG, INITIAL, Some(FRAME));
    var q := Turn(p).0;
    assert q.out == [FRAME] && q == Packing([FRAME], 96, 1, 0, None, None, false, []);
    assert Turn(q) == (q, false);
    assert Pack(CFG, q) == q && Pack(CFG, p) == q;
    assert [] + Opt(None) == [];
  }

  lemma SecondFrame()
    ensures AggrTxFrame(CFG, ONE, Some(FRAME), true) == (TWO, None)
  {
    var p := Start(CFG, ONE, Some(FRAME));
    var q := Turn(p).0;
    assert q.out == [FRAME, FRAME] && q == Packing([FRAME, FRAME], 92, 2, 0, None, None, false, []);
    assert Turn(q) == (q, false);
    assert Pack(CFG, q) == q && Pack(CFG, p) == q;
    assert [] + Opt(None) == [];
  }

  lemma ThirdFrame()
    ensures AggrTxFrame(CFG, TWO.(pending := 0), Some(FRAME), true) == (THREE, None)
  {
    var p := Start(CFG, TWO.(pending := 0), Some(FRAME));
    var q := Turn(p).0;
    assert q.out == [FRAME, FRAME, FRAME] && q == Packing([FRAME, FRAME, FRAME], 88, 3, 0, None, None, false, []);
    assert Turn(q) == (q, false);
    assert Pack(CFG, q) == q && Pack(CFG, p) == q;
    assert [] + Opt(None) == [];
  }

  lemma TwoSends()
    ensures Steps(CFG, T0, Send(FRAME, true), T1) && Steps(CFG, T4, Send(FRAME, true), T5)
  {
    FirstFrame();
    SecondFrame();
  }

  lemma FirstExpiry()
    ensures Steps(CFG, T1, Expire, T2) && Steps(CFG, T2, Schedules, T3) && Steps(CFG, T3, Returns, T4)
  {
  }

  lemma SecondExpiry()
    ensures Steps(CFG, T5, Expire, T6) && Steps(CFG, T6, Schedules, T7)
    ensures Steps(CFG, T7, Starts, T8) && Steps(CFG, T8, Section, T9) && Steps(CFG, T9, Returns, T10)
    ensures StartMissed(CFG, T8, Section) && Stranded(T10)
  {
  }

  /** A run in which no flush is refused and yet two frames are left that nothing will
      look at: the tasklet runs beside a callback that found its bit set. */
  lemma MissedStartStrands() returns (states: seq<Timer>, events: seq<Event>)
    ensures IsRun(CFG, states, events) && |events| == 10
    ensures forall i :: 0 <= i < |events| ==> !FlushRefused(states[i], events[i])
    ensures StartMissed(CFG, states[8], events[8])
    ensures Stranded(states[10]) && |states[10].ctx.cur.value| == 2
  {
    TwoSends();
    FirstExpiry();
    SecondExpiry();
    states := [T0, T1, T2, T3, T4, T5, T6, T7, T8, T9, T10];
    events := [Send(FRAME, true), Expire, Schedules, Returns, Send(FRAME, true), Expire, Schedules, Starts, Section, Returns];
  }
}
