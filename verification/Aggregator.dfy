// Uplink aggregation (src/linux/qcom_usbnet/qcom_usbnet_main.c, aggr_tx_frame): a
// state machine that packs frames under a size and a count limit, with one
// frame carried over.
module Aggregator {
  import opened Bytes
  import Qmap

  type Skb = seq<byte>

  const RESTART_TIMER_DATAGRAM_CNT: nat := 3
  const TIMER_PENDING_CNT: nat := 2

  // tx_max, tx_max_datagrams and timer_interval.
  datatype Config = Config(maxSize: nat, maxFrames: nat, interval: int)

  /** struct rm_cdc_ncm_ctx. The frames copied into tx_curr_skb are kept apart, and
      `lost` lists the frames that tx_dropped counts. */
  datatype Ctx = Ctx(
    cur: Option<seq<Skb>>,   // tx_curr_skb
    rem: Option<Skb>,        // tx_rem_skb
    room: int,               // tx_curr_size
    num: nat,                // tx_curr_frame_num
    payload: int,            // tx_curr_frame_payload
    pending: nat,            // tx_timer_pending
    overhead: int,           // tx_overhead
    reasonMax: nat,          // tx_reason_max_datagram
    lost: seq<Skb>)

  const INITIAL := Ctx(None, None, 0, 0, 0, 0, 0, 0, [])

  function Opt(o: Option<Skb>): seq<Skb> {
    match o case None => [] case Some(x) => [x]
  }

  // The payload the driver counts for one frame: all but the header and the padding
  // that the first header byte declares.
  function Payload1(f: Skb): int {
    |f| - Qmap.HEADER - if f == [] then 0 else f[0] as int
  }

  function Size(fs: seq<Skb>): nat {
    if fs == [] then 0 else Size(fs[..|fs| - 1]) + |fs[|fs| - 1]|
  }

  function Payload(fs: seq<Skb>): int {
    if fs == [] then 0 else Payload(fs[..|fs| - 1]) + Payload1(fs[|fs| - 1])
  }

  // The locals of the packing loop.
  datatype Packing = Packing(out: seq<Skb>, room: int, n: nat, payload: int,
                             skb: Option<Skb>, rem: Option<Skb>, ready: bool, lost: seq<Skb>)

  // One turn of the packing loop, and whether it goes on.
  function Turn(p: Packing): (Packing, bool) {
    var skb := if p.skb.None? then p.rem else p.skb;
    var rem := if p.skb.None? then None else p.rem;
    match skb
    case None => (p.(skb := None, rem := None), false)
    case Some(f) =>
      if p.room < |f| then
        (p.(skb := None, rem := skb, ready := true, lost := p.lost + Opt(rem)), false)
      else
        (Packing(p.out + [f], p.room - |f|, p.n + 1, p.payload + Payload1(f), None, rem, p.ready, p.lost), true)
  }

  /** The packing loop. */
  function Pack(cfg: Config, p: Packing): Packing
    decreases cfg.maxFrames - p.n
  {
    if p.n >= cfg.maxFrames then p
    else
      var (q, more) := Turn(p);
      if more then Pack(cfg, q) else q
  }

  // What the loop starts from: a frame carried over goes first.
  function Start(cfg: Config, c: Ctx, skb: Option<Skb>): Packing {
    var first := if skb.Some? then c.rem else None;
    var rem := if skb.Some? then skb else c.rem;
    match c.cur
    case None => Packing([], cfg.maxSize, 0, 0, first, rem, skb.None?, c.lost)
    case Some(out) => Packing(out, c.room, c.num, c.payload, first, rem, skb.None?, c.lost)
  }

  // What aggr_tx_frame does once the loop is over: wait for more frames or send.
  function Close(cfg: Config, c: Ctx, p: Packing): (Ctx, Option<seq<Skb>>) {
    var c1 := c.(rem := p.rem, room := p.room, num := p.n, payload := p.payload, lost := p.lost + Opt(p.skb));
    if p.n == 0 then
      (c1.(cur := Some(p.out)), None)
    else if p.n < cfg.maxFrames && !p.ready && cfg.interval > 0 then
      (c1.(cur := Some(p.out), pending := if p.n < RESTART_TIMER_DATAGRAM_CNT then TIMER_PENDING_CNT else c.pending), None)
    else
      (c1.(cur := None, num := 0, room := 0, payload := 0,
           overhead := c.overhead + (Size(p.out) - p.payload),
           reasonMax := c.reasonMax + if p.n == cfg.maxFrames then 1 else 0),
       Some(p.out))
  }

  /** aggr_tx_frame. With no frame it flushes; `alloc` says whether a new buffer
      could be allocated, if one is needed. */
  function AggrTxFrame(cfg: Config, c: Ctx, skb: Option<Skb>, alloc: bool): (Ctx, Option<seq<Skb>>) {
    var s := Start(cfg, c, skb);
    if c.cur.None? && !alloc then
      (c.(room := cfg.maxSize, rem := s.rem, lost := c.lost + Opt(s.skb)), None)
    else
      Close(cfg, c, Pack(cfg, s))
  }

  // ------------------------------------------------------------------------
  // What holds whatever is fed in

  /** The counters describe the frames in the current aggregate. */
  ghost predicate Consistent(cfg: Config, c: Ctx) {
    c.cur.Some? ==>
      && c.num == |c.cur.value|
      && c.room == cfg.maxSize - Size(c.cur.value) >= 0
      && c.payload == Payload(c.cur.value)
      && (c.num == 0 || c.num < cfg.maxFrames)
  }

  // The frames held, in the order they will leave.
  function Held(c: Ctx): seq<Skb> {
    (if c.cur.Some? then c.cur.value else []) + Opt(c.rem)
  }

  ghost predicate PackingOk(cfg: Config, p: Packing) {
    && p.n == |p.out|
    && p.room == cfg.maxSize - Size(p.out) >= 0
    && p.payload == Payload(p.out)
    && (p.n == 0 || p.n <= cfg.maxFrames)
  }

  // Every frame the loop has hold of.
  ghost function All(p: Packing): multiset<Skb> {
    multiset(p.out) + multiset(Opt(p.skb)) + multiset(Opt(p.rem)) + multiset(p.lost)
  }

  // A frame left over did not fit, and forces the aggregate out.
  ghost predicate LeftOver(cfg: Config, p: Packing) {
    p.rem.Some? ==> p.ready && Size(p.out) + |p.rem.value| > cfg.maxSize
  }

  lemma TurnKeeps(cfg: Config, p: Packing)
    requires PackingOk(cfg, p) && p.n < cfg.maxFrames
    ensures var (q, more) := Turn(p);
      && PackingOk(cfg, q)
      && (p.ready ==> q.ready)
      && (q.ready ==> p.ready || q.rem.Some?)
      && (!more ==> LeftOver(cfg, q))
      && (more ==> q.n == p.n + 1 && q.ready == p.ready)
  {
    var (q, more) := Turn(p);
    if more {
      assert q.out[..|q.out| - 1] == p.out;
    }
  }

  lemma TurnConserves(p: Packing)
    ensures All(Turn(p).0) == All(p)
  {
    var skb := if p.skb.None? then p.rem else p.skb;
    var rem := if p.skb.None? then None else p.rem;
    var o, s, r, l := multiset(p.out), multiset(Opt(skb)), multiset(Opt(rem)), multiset(p.lost);
    var q := Turn(p).0;
    Shuffle(o, s, r, l);
    if skb.Some? {
      AppendOne(p.out, skb);
      AppendOne(p.lost, rem);
      assert All(q) == if p.room < |skb.value| then o + multiset{} + s + (l + r) else (o + s) + multiset{} + r + l;
      assert All(p) == if p.skb.Some? then o + s + r + l else o + multiset{} + s + l;
      assert p.skb.None? ==> r == multiset{};
    }
  }

  lemma Shuffle(o: multiset<Skb>, s: multiset<Skb>, r: multiset<Skb>, l: multiset<Skb>)
    ensures (o + s) + multiset{} + r + l == o + s + r + l
    ensures o + multiset{} + s + (l + r) == o + s + r + l
    ensures o + multiset{} + s + l == o + s + multiset{} + l
  {
  }

  lemma AppendOne(fs: seq<Skb>, f: Option<Skb>)
    ensures multiset(fs + Opt(f)) == multiset(fs) + multiset(Opt(f))
  {
  }

  lemma {:induction false} PackKeeps(cfg: Config, p: Packing)
    requires PackingOk(cfg, p)
    ensures var q := Pack(cfg, p);
      && PackingOk(cfg, q)
      && All(q) == All(p)
      && (p.ready ==> q.ready)
      && (q.ready ==> p.ready || q.rem.Some?)
      && (q.n < cfg.maxFrames ==> LeftOver(cfg, q))
    decreases cfg.maxFrames - p.n
  {
    if p.n < cfg.maxFrames {
      TurnKeeps(cfg, p);
      TurnConserves(p);
      if Turn(p).1 {
        PackKeeps(cfg, Turn(p).0);
      }
    }
  }

  function Sent(out: Option<seq<Skb>>): seq<Skb> {
    if out.Some? then out.value else []
  }

  /** Every step keeps the counters right and accounts for every frame: what was held
      and what came in is sent, held or counted as dropped. */
  lemma StepAccounts(cfg: Config, c: Ctx, skb: Option<Skb>, alloc: bool)
    requires Consistent(cfg, c)
    ensures var (c', out) := AggrTxFrame(cfg, c, skb, alloc);
      && Consistent(cfg, c')
      && multiset(Held(c)) + multiset(Opt(skb)) + multiset(c.lost)
         == multiset(Sent(out)) + multiset(Held(c')) + multiset(c'.lost)
      && c'.overhead == c.overhead + Size(Sent(out)) - Payload(Sent(out))
      && (out.Some? ==> out.value != [] && |out.value| <= cfg.maxFrames && Size(out.value) <= cfg.maxSize)
  {
    StartConserves(cfg, c, skb);
    if c.cur.None? && !alloc {
      FailedAccounts(cfg, c, skb);
    } else {
      PackKeeps(cfg, Start(cfg, c, skb));
      CloseAccounts(cfg, c, Pack(cfg, Start(cfg, c, skb)));
    }
  }

  // No buffer: a frame carried over is dropped, the one that came in takes its place.
  lemma FailedAccounts(cfg: Config, c: Ctx, skb: Option<Skb>)
    requires c.cur.None?
    ensures var (c', out) := AggrTxFrame(cfg, c, skb, false);
      && out.None? && c'.cur.None? && c'.overhead == c.overhead
      && multiset(Held(c)) + multiset(Opt(skb)) + multiset(c.lost) == multiset(Held(c')) + multiset(c'.lost)
  {
    var p := Start(cfg, c, skb);
    var c' := AggrTxFrame(cfg, c, skb, false).0;
    assert Held(c) == Opt(c.rem) && Held(c') == Opt(p.rem);
    AppendOne(c.lost, p.skb);
  }

  lemma StartConserves(cfg: Config, c: Ctx, skb: Option<Skb>)
    ensures All(Start(cfg, c, skb)) == multiset(Held(c)) + multiset(Opt(skb)) + multiset(c.lost)
    ensures c.cur.None? ==> Start(cfg, c, skb).out == []
    ensures multiset(Held(c.(rem := Start(cfg, c, skb).rem))) == multiset(Start(cfg, c, skb).out) + multiset(Opt(Start(cfg, c, skb).rem))
  {
    var out := if c.cur.Some? then c.cur.value else [];
    assert Held(c) == out + Opt(c.rem);
    assert Held(c.(rem := Start(cfg, c, skb).rem)) == out + Opt(Start(cfg, c, skb).rem);
  }

  lemma CloseAccounts(cfg: Config, c: Ctx, p: Packing)
    requires PackingOk(cfg, p)
    ensures var (c', out) := Close(cfg, c, p);
      && Consistent(cfg, c')
      && All(p) == multiset(Sent(out)) + multiset(Held(c')) + multiset(c'.lost)
      && c'.overhead == c.overhead + Size(Sent(out)) - Payload(Sent(out))
      && (out.Some? ==> out.value == p.out != [] && |out.value| <= cfg.maxFrames && Size(out.value) <= cfg.maxSize)
  {
  }

  // ------------------------------------------------------------------------
  // Order, when frames fit and allocation succeeds

  ghost predicate Fits(cfg: Config, fs: seq<Skb>) {
    forall f :: f in fs ==> |f| <= cfg.maxSize
  }

  /** A current aggregate and a carried-over frame are never held at once. */
  ghost predicate Orderly(cfg: Config, c: Ctx) {
    && Consistent(cfg, c)
    && Fits(cfg, Held(c))
    && (c.cur.Some? ==> c.rem.None?)
  }

  // The frames the loop has hold of, in the order they will leave.
  function InOrder(p: Packing): seq<Skb> {
    p.out + Opt(p.skb) + Opt(p.rem)
  }

  ghost predicate PackingOrderly(cfg: Config, p: Packing) {
    && PackingOk(cfg, p)
    && Fits(cfg, InOrder(p))
    && (p.skb.Some? ==> p.out == [] && p.rem.Some?)
  }

  lemma TurnInOrder(cfg: Config, p: Packing)
    requires PackingOrderly(cfg, p) && p.n < cfg.maxFrames
    ensures var (q, more) := Turn(p);
      && InOrder(q) == InOrder(p) && q.lost == p.lost && q.skb.None?
      && (q.n == 0 ==> InOrder(q) == [])
      && (more ==> PackingOrderly(cfg, q))
  {
    TurnKeeps(cfg, p);
    TurnReorders(cfg, p);
  }

  lemma TurnReorders(cfg: Config, p: Packing)
    requires PackingOrderly(cfg, p)
    ensures var (q, more) := Turn(p);
      InOrder(q) == InOrder(p) && q.lost == p.lost && q.skb.None? && (q.n == 0 ==> InOrder(q) == [])
  {
    var q := Turn(p).0;
    match p.skb
    case Some(f) =>
      assert f in InOrder(p);
      assert p.out + [f] + Opt(p.rem) == (p.out + [f]) + [] + Opt(q.rem);
    case None =>
      match p.rem
      case None =>
      case Some(f) =>
        assert f in InOrder(p);
        assert p.out + [] + [f] == InOrder(q);
  }

  lemma {:induction false} PackInOrder(cfg: Config, p: Packing)
    requires PackingOrderly(cfg, p) && 1 <= cfg.maxFrames && (p.n == cfg.maxFrames ==> p.skb.None?)
    ensures var q := Pack(cfg, p);
      && InOrder(q) == InOrder(p) && q.lost == p.lost && q.skb.None?
      && (q.n == 0 ==> InOrder(q) == [])
    decreases cfg.maxFrames - p.n
  {
    if p.n < cfg.maxFrames {
      TurnInOrder(cfg, p);
      TurnKeeps(cfg, p);
      if Turn(p).1 {
        PackInOrder(cfg, Turn(p).0);
      }
    }
  }

  lemma StartOrderly(cfg: Config, c: Ctx, skb: Option<Skb>)
    requires Orderly(cfg, c) && 1 <= cfg.maxFrames && Fits(cfg, Opt(skb))
    ensures var p := Start(cfg, c, skb);
      && PackingOrderly(cfg, p) && p.lost == c.lost && p.ready == skb.None?
      && InOrder(p) == Held(c) + Opt(skb)
      && (p.n == cfg.maxFrames ==> p.skb.None?)
      && (skb.None? ==> p.skb.None? && (p.out == [] || p.rem.None?))
  {
    var p := Start(cfg, c, skb);
    assert InOrder(p) == Held(c) + Opt(skb);
    assert forall f :: f in InOrder(p) ==> f in Held(c) || f in Opt(skb);
  }

  // A flush leaves nothing over.
  lemma PackFlushes(cfg: Config, p: Packing)
    requires PackingOrderly(cfg, p) && 1 <= cfg.maxFrames && p.skb.None? && (p.out == [] || p.rem.None?)
    ensures Pack(cfg, p).rem.None?
  {
    if p.rem.Some? {
      assert p.rem.value in InOrder(p);
      var q := Turn(p).0;
      assert q.rem.None? && Pack(cfg, q).rem.None?;
    }
  }

  lemma CloseInOrder(cfg: Config, c: Ctx, p: Packing)
    requires PackingOk(cfg, p) && p.skb.None? && (p.n == 0 ==> InOrder(p) == [])
    requires p.n < cfg.maxFrames ==> LeftOver(cfg, p)
    ensures var (c', out) := Close(cfg, c, p);
      && c'.lost == p.lost && c'.rem == p.rem
      && Sent(out) + Held(c') == InOrder(p)
      && (c'.cur.Some? ==> c'.rem.None? && (p.ready ==> Held(c') == []))
      && (out.Some? && cfg.interval > 0 && |out.value| < cfg.maxFrames ==> p.ready)
      && (out.Some? && |out.value| < cfg.maxFrames && c'.rem.Some? ==> Size(out.value) + |c'.rem.value| > cfg.maxSize)
  {
    if p.n == 0 {
      assert |InOrder(p)| == 0 && p.rem.None?;
    }
  }

  /** One step in order: nothing is dropped, and what is sent and then held is what
      was held and then what came in. A send below the count limit that no
      flush asked for leaves a frame that would not have fitted; a flush sends everything. */
  lemma StepInOrder(cfg: Config, c: Ctx, skb: Option<Skb>)
    requires Orderly(cfg, c) && 1 <= cfg.maxFrames && Fits(cfg, Opt(skb))
    ensures var (c', out) := AggrTxFrame(cfg, c, skb, true);
      && Orderly(cfg, c')
      && c'.lost == c.lost
      && Sent(out) + Held(c') == Held(c) + Opt(skb)
      && (out.Some? && skb.Some? && cfg.interval > 0 && |out.value| < cfg.maxFrames ==>
            c'.rem.Some? && Size(out.value) + |c'.rem.value| > cfg.maxSize)
      && (skb.None? ==> Held(c') == [])
  {
    var p := Start(cfg, c, skb);
    StartOrderly(cfg, c, skb);
    PackKeeps(cfg, p);
    PackInOrder(cfg, p);
    CloseInOrder(cfg, c, Pack(cfg, p));
    if skb.None? {
      PackFlushes(cfg, p);
    }
    var (c', out) := AggrTxFrame(cfg, c, skb, true);
    CloseAccounts(cfg, c, Pack(cfg, p));
    FitsBehind(cfg, Sent(out), Held(c'));
    FitsJoined(cfg, Held(c), Opt(skb));
  }

  lemma FitsBehind(cfg: Config, sent: seq<Skb>, held: seq<Skb>)
    ensures Fits(cfg, sent + held) ==> Fits(cfg, held)
  {
    assert forall f :: f in held ==> f in sent + held;
  }

  lemma FitsJoined(cfg: Config, a: seq<Skb>, b: seq<Skb>)
    requires Fits(cfg, a) && Fits(cfg, b)
    ensures Fits(cfg, a + b)
  {
  }

  // ------------------------------------------------------------------------
  // Runs

  // One call: a frame or a flush, and whether allocation would succeed.
  datatype Call = Call(skb: Option<Skb>, alloc: bool)

  function Run(cfg: Config, c: Ctx, calls: seq<Call>): (Ctx, seq<seq<Skb>>)
    decreases |calls|
  {
    if calls == [] then (c, [])
    else
      var (c1, out) := AggrTxFrame(cfg, c, calls[0].skb, calls[0].alloc);
      var (c2, outs) := Run(cfg, c1, calls[1..]);
      (c2, (if out.Some? then [out.value] else []) + outs)
  }

  function Accepted(calls: seq<Call>): seq<Skb> {
    if calls == [] then [] else Opt(calls[0].skb) + Accepted(calls[1..])
  }

  function Flatten(outs: seq<seq<Skb>>): seq<Skb> {
    if outs == [] then [] else outs[0] + Flatten(outs[1..])
  }

  // All of each frame but the payload the driver counts for it.
  function Overhead(fs: seq<Skb>): int {
    if fs == [] then 0 else |fs[0]| - Payload1(fs[0]) + Overhead(fs[1..])
  }

  lemma {:induction false} OverheadIsSizeMinusPayload(fs: seq<Skb>)
    ensures Overhead(fs) == Size(fs) - Payload(fs)
  {
    if fs != [] {
      OverheadAppend(fs[..|fs| - 1], fs[|fs| - 1..]);
      OverheadIsSizeMinusPayload(fs[..|fs| - 1]);
      assert fs == fs[..|fs| - 1] + fs[|fs| - 1..];
      assert fs[|fs| - 1..][1..] == [];
    }
  }

  lemma {:induction false} OverheadAppend(a: seq<Skb>, b: seq<Skb>)
    ensures Overhead(a + b) == Overhead(a) + Overhead(b)
  {
    if a == [] {
      assert a + b == b;
    } else {
      OverheadAppend(a[1..], b);
      assert (a + b)[1..] == a[1..] + b;
    }
  }

  ghost predicate WithinLimits(cfg: Config, outs: seq<seq<Skb>>) {
    forall i :: 0 <= i < |outs| ==> outs[i] != [] && |outs[i]| <= cfg.maxFrames && Size(outs[i]) <= cfg.maxSize
  }

  /** Accounting over every run, oversize frames and failed allocations included:
      each frame accepted is sent, held or counted as dropped, exactly once; every
      aggregate keeps both limits; the overhead counted is what the frames sent have beside
      the payload the driver counts. */
  lemma {:induction false} RunAccounts(cfg: Config, c: Ctx, calls: seq<Call>)
    requires Consistent(cfg, c)
    ensures var (c', outs) := Run(cfg, c, calls);
      && Consistent(cfg, c')
      && multiset(Held(c)) + multiset(Accepted(calls)) + multiset(c.lost)
         == multiset(Flatten(outs)) + multiset(Held(c')) + multiset(c'.lost)
      && WithinLimits(cfg, outs)
      && c'.overhead == c.overhead + Overhead(Flatten(outs))
    decreases |calls|
  {
    if calls == [] {
      assert Accepted(calls) == [] && Flatten([]) == [];
    } else {
      var (c1, out) := AggrTxFrame(cfg, c, calls[0].skb, calls[0].alloc);
      StepAccounts(cfg, c, calls[0].skb, calls[0].alloc);
      RunAccounts(cfg, c1, calls[1..]);
      var (c', outs1) := Run(cfg, c1, calls[1..]);
      FlattenOne(out, outs1);
      ChainAccounts(c, Opt(calls[0].skb), c1, Sent(out), Accepted(calls[1..]), c', Flatten(outs1));
      LimitsOne(cfg, out, outs1);
    }
  }

  lemma LimitsOne(cfg: Config, out: Option<seq<Skb>>, outs: seq<seq<Skb>>)
    requires WithinLimits(cfg, outs)
    requires out.Some? ==> out.value != [] && |out.value| <= cfg.maxFrames && Size(out.value) <= cfg.maxSize
    ensures WithinLimits(cfg, (if out.Some? then [out.value] else []) + outs)
  {
  }

  // Two stretches of a run, one after the other.
  lemma ChainAccounts(c: Ctx, in1: seq<Skb>, c1: Ctx, sent1: seq<Skb>, in2: seq<Skb>, c2: Ctx, sent2: seq<Skb>)
    requires multiset(Held(c)) + multiset(in1) + multiset(c.lost) == multiset(sent1) + multiset(Held(c1)) + multiset(c1.lost)
    requires multiset(Held(c1)) + multiset(in2) + multiset(c1.lost) == multiset(sent2) + multiset(Held(c2)) + multiset(c2.lost)
    requires c1.overhead == c.overhead + Size(sent1) - Payload(sent1) && c2.overhead == c1.overhead + Overhead(sent2)
    ensures multiset(Held(c)) + multiset(in1 + in2) + multiset(c.lost)
         == multiset(sent1 + sent2) + multiset(Held(c2)) + multiset(c2.lost)
    ensures c2.overhead == c.overhead + Overhead(sent1 + sent2)
  {
    OverheadIsSizeMinusPayload(sent1);
    OverheadAppend(sent1, sent2);
    Cancel(multiset(Held(c)), multiset(in1), multiset(c.lost), multiset(sent1), multiset(Held(c1)), multiset(c1.lost),
           multiset(in2), multiset(sent2), multiset(Held(c2)), multiset(c2.lost));
  }

  lemma Cancel(h: multiset<Skb>, i: multiset<Skb>, l: multiset<Skb>, s: multiset<Skb>, h1: multiset<Skb>, l1: multiset<Skb>,
               j: multiset<Skb>, t: multiset<Skb>, h2: multiset<Skb>, l2: multiset<Skb>)
    requires h + i + l == s + h1 + l1 && h1 + j + l1 == t + h2 + l2
    ensures h + (i + j) + l == (s + t) + h2 + l2
  {
    var left, right := h + (i + j) + l, (s + t) + h2 + l2;
    forall x
      ensures left[x] == right[x]
    {
      assert (h + i + l)[x] == (s + h1 + l1)[x] && (h1 + j + l1)[x] == (t + h2 + l2)[x];
    }
  }

  lemma FlattenOne(out: Option<seq<Skb>>, outs: seq<seq<Skb>>)
    ensures Flatten((if out.Some? then [out.value] else []) + outs) == Sent(out) + Flatten(outs)
  {
    if out.Some? {
      assert ([out.value] + outs)[1..] == outs;
    } else {
      assert [] + outs == outs;
      assert [] + Flatten(outs) == Flatten(outs);
    }
  }

  /** When every frame fits an empty aggregate and allocation succeeds, nothing is
      dropped in any run, and what was sent and is still held is what was accepted, in order. */
  lemma {:induction false} RunInOrder(cfg: Config, c: Ctx, calls: seq<Call>)
    requires Orderly(cfg, c) && 1 <= cfg.maxFrames
    requires forall i :: 0 <= i < |calls| ==> calls[i].alloc && Fits(cfg, Opt(calls[i].skb))
    ensures var (c', outs) := Run(cfg, c, calls);
      && Orderly(cfg, c')
      && c'.lost == c.lost
      && Flatten(outs) + Held(c') == Held(c) + Accepted(calls)
      && (calls != [] && calls[|calls| - 1].skb.None? ==> Held(c') == [])
    decreases |calls|
  {
    if calls == [] {
      assert Held(c) + Accepted(calls) == Held(c);
      assert Flatten([]) + Held(c) == Held(c);
    } else {
      var (c1, out) := AggrTxFrame(cfg, c, calls[0].skb, true);
      StepInOrder(cfg, c, calls[0].skb);
      RunInOrder(cfg, c1, calls[1..]);
      var (c', outs1) := Run(cfg, c1, calls[1..]);
      FlattenOne(out, outs1);
      Regroup(Sent(out), Flatten(outs1), Held(c'), Held(c1), Accepted(calls[1..]));
      Associate(Held(c), Opt(calls[0].skb), Accepted(calls[1..]));
      if |calls| > 1 {
        assert calls[1..][|calls| - 2] == calls[|calls| - 1];
      }
    }
  }

  lemma Regroup(a: seq<Skb>, b: seq<Skb>, c: seq<Skb>, d: seq<Skb>, e: seq<Skb>)
    requires b + c == d + e
    ensures (a + b) + c == (a + d) + e
  {
    Associate(a, b, c);
    Associate(a, d, e);
  }

  // ------------------------------------------------------------------------
  // A frame larger than an empty aggregate

  /** Nothing is packed, and the frame carried over fits no aggregate. */
  ghost predicate Blocked(cfg: Config, c: Ctx) {
    && c.cur == Some([]) && c.rem.Some? && |c.rem.value| > cfg.maxSize
    && c.num == 0 && c.room == cfg.maxSize && c.payload == 0
  }

  // Such a frame blocks an idle context at once.
  lemma OversizeFrameBlocks(cfg: Config, c: Ctx, skb: Skb)
    requires c.cur.None? && c.rem.None? && |skb| > cfg.maxSize && 1 <= cfg.maxFrames
    ensures var (c', out) := AggrTxFrame(cfg, c, Some(skb), true);
      Blocked(cfg, c') && c'.rem == Some(skb) && out.None? && c'.lost == c.lost
  {
    var p := Start(cfg, c, Some(skb));
    assert p.lost + [] == p.lost;
    assert Pack(cfg, p) == Turn(p).0;
  }

  lemma BlockedDrops(cfg: Config, c: Ctx, skb: Option<Skb>, alloc: bool)
    requires Blocked(cfg, c) && 1 <= cfg.maxFrames
    ensures AggrTxFrame(cfg, c, skb, alloc) == (c.(lost := c.lost + Opt(skb)), None)
  {
    var p := Start(cfg, c, skb);
    assert Pack(cfg, p) == Turn(p).0;
    assert c.lost + Opt(skb) + [] == c.lost + Opt(skb);
  }

  /** From then on the uplink is stopped for good: in every run nothing is sent, flushes
      included, and exactly the frames accepted are dropped. */
  lemma {:induction false} BlockedForever(cfg: Config, c: Ctx, calls: seq<Call>)
    requires Blocked(cfg, c) && 1 <= cfg.maxFrames
    ensures Run(cfg, c, calls) == (c.(lost := c.lost + Accepted(calls)), [])
    decreases |calls|
  {
    if calls == [] {
      assert Accepted(calls) == [] && c.lost + [] == c.lost;
    } else {
      BlockedDrops(cfg, c, calls[0].skb, calls[0].alloc);
      var c1 := c.(lost := c.lost + Opt(calls[0].skb));
      BlockedForever(cfg, c1, calls[1..]);
      Associate(c.lost, Opt(calls[0].skb), Accepted(calls[1..]));
      assert c1.lost + Accepted(calls[1..]) == c.lost + Accepted(calls);
      var none: seq<seq<Skb>> := [];
      assert none + none == none;
    }
  }

  // ------------------------------------------------------------------------
  // When a call sends, and what it leaves for the timer

  // What a call that has a buffer does with the frames it packed.
  lemma AfterPacking(cfg: Config, c: Ctx, skb: Option<Skb>)
    requires Consistent(cfg, c)
    ensures var q := Pack(cfg, Start(cfg, c, skb));
      && PackingOk(cfg, q)
      && (skb.None? ==> q.ready) && (q.ready ==> skb.None? || q.rem.Some?)
      && (q.n < cfg.maxFrames && q.rem.Some? ==> q.ready && Size(q.out) + |q.rem.value| > cfg.maxSize)
  {
    PackKeeps(cfg, Start(cfg, c, skb));
  }

  /** Whatever the call: frames that are left waiting are fewer than the limit, nothing
      is carried over beside them, no flush was asked for and there is a timer interval;
      fewer than three of them renew tx_timer_pending to two, three or more leave it. */
  lemma WaitsOnly(cfg: Config, c: Ctx, skb: Option<Skb>, alloc: bool)
    requires Consistent(cfg, c)
    ensures var (c', out) := AggrTxFrame(cfg, c, skb, alloc);
      c'.cur.Some? && c'.cur.value != [] ==>
        && out.None?
        && |c'.cur.value| < cfg.maxFrames && c'.rem.None? && skb.Some? && cfg.interval > 0
        && c'.pending == if |c'.cur.value| < 3 then 2 else c.pending
  {
    AfterPacking(cfg, c, skb);
  }

  /** And frames are sent only with the limit reached, one left over that did not fit, on a
      flush or without an interval; the counters start again, tx_timer_pending is left
      alone, and tx_reason_max_datagram counts the aggregates that reached the limit. */
  lemma SendsOnly(cfg: Config, c: Ctx, skb: Option<Skb>, alloc: bool)
    requires Consistent(cfg, c)
    ensures var (c', out) := AggrTxFrame(cfg, c, skb, alloc);
      && (out.Some? ==>
            && c'.cur.None? && c'.num == 0 && c'.room == 0 && c'.payload == 0
            && (|out.value| == cfg.maxFrames || skb.None? || cfg.interval <= 0
                || (c'.rem.Some? && Size(out.value) + |c'.rem.value| > cfg.maxSize)))
      && (out.Some? || c'.cur.None? || c'.cur.value == [] ==> c'.pending == c.pending)
      && c'.reasonMax == c.reasonMax + (if out.Some? && |out.value| == cfg.maxFrames then 1 else 0)
  {
    AfterPacking(cfg, c, skb);
  }

  /** When every frame fits and allocation succeeds, a call sends exactly if there are frames
      and they reach the count limit, exceed the size limit, or are flushed, or
      there is no interval. */
  lemma SendsExactlyWhen(cfg: Config, c: Ctx, skb: Option<Skb>)
    requires Orderly(cfg, c) && 1 <= cfg.maxFrames && Fits(cfg, Opt(skb))
    ensures var frames := Held(c) + Opt(skb);
      AggrTxFrame(cfg, c, skb, true).1.Some? <==>
        frames != [] &&
        (|frames| >= cfg.maxFrames || Size(frames) > cfg.maxSize || skb.None? || cfg.interval <= 0)
  {
    PackedInOrder(cfg, c, skb);
    AfterPacking(cfg, c, skb);
    PackedSends(cfg, c, Pack(cfg, Start(cfg, c, skb)), Held(c) + Opt(skb), skb.None?);
  }

  lemma PackedInOrder(cfg: Config, c: Ctx, skb: Option<Skb>)
    requires Orderly(cfg, c) && 1 <= cfg.maxFrames && Fits(cfg, Opt(skb))
    ensures var q := Pack(cfg, Start(cfg, c, skb));
      Held(c) + Opt(skb) == q.out + Opt(q.rem) && (q.n == 0 ==> Held(c) + Opt(skb) == [])
  {
    StartOrderly(cfg, c, skb);
    PackInOrder(cfg, Start(cfg, c, skb));
    var q := Pack(cfg, Start(cfg, c, skb));
    assert q.out + [] + Opt(q.rem) == q.out + Opt(q.rem);
  }

  lemma PackedSends(cfg: Config, c: Ctx, q: Packing, frames: seq<Skb>, flush: bool)
    requires PackingOk(cfg, q) && frames == q.out + Opt(q.rem) && (q.n == 0 ==> frames == [])
    requires (flush ==> q.ready) && (q.ready ==> flush || q.rem.Some?)
    requires q.n < cfg.maxFrames && q.rem.Some? ==> q.ready && Size(q.out) + |q.rem.value| > cfg.maxSize
    ensures Close(cfg, c, q).1.Some? <==>
      frames != [] && (|frames| >= cfg.maxFrames || Size(frames) > cfg.maxSize || flush || cfg.interval <= 0)
  {
    match q.rem
    case None =>
      assert frames == q.out;
    case Some(f) =>
      assert |frames| == |q.out| + 1 && frames[|q.out|] == f && frames[..|q.out|] == q.out;
      assert Size(frames) == Size(q.out) + |f|;
  }
}
