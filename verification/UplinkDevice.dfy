// aggr_tx_frame in the driver's own form: a context whose fields are updated in
// place and a packing loop over the buffers.
module UplinkDevice {
  import opened Bytes
  import A = Aggregator

  class Context {
    const cfg: A.Config
    var currSkb: Option<seq<byte>>
    var remSkb: Option<seq<byte>>
    var currSize: int
    var currFrameNum: nat
    var currFramePayload: int
    var timerPending: nat
    var overhead: int
    var reasonMaxDatagram: nat
    var dropped: nat
    ghost var frames: seq<A.Skb>   // what was copied into currSkb
    ghost var lost: seq<A.Skb>     // what dropped counts

    ghost predicate Valid()
      reads this
    {
      && (currSkb.Some? ==> currSkb.value == Concat(frames))
      && dropped == |lost|
      && A.Consistent(cfg, State())
    }

    ghost function State(): A.Ctx
      reads this
    {
      A.Ctx(if currSkb.Some? then Some(frames) else None, remSkb, currSize, currFrameNum, currFramePayload,
            timerPending, overhead, reasonMaxDatagram, lost)
    }

    constructor (cfg: A.Config)
      ensures Valid() && State() == A.INITIAL && this.cfg == cfg
    {
      this.cfg := cfg;
      currSkb, remSkb, currSize, currFrameNum, currFramePayload := None, None, 0, 0, 0;
      timerPending, overhead, reasonMaxDatagram, dropped := 0, 0, 0, 0;
      frames, lost := [], [];
    }

    method Drop(skb: A.Skb)
      modifies this`dropped, this`lost
      ensures dropped == old(dropped) + 1 && lost == old(lost) + [skb]
    {
      dropped := dropped + 1;
      lost := lost + [skb];
    }

    /** aggr_tx_frame: the bytes sent are the frames that the function of the same
        name in Aggregator sends, one after the other. */
    method AggrTxFrame(frame: Option<A.Skb>, alloc: bool) returns (sent: Option<seq<byte>>)
      requires Valid()
      modifies this
      ensures Valid()
      ensures var (c, out) := A.AggrTxFrame(cfg, old(State()), frame, alloc);
        && State() == c
        && (sent.Some? <==> out.Some?)
        && (sent.Some? ==> sent.value == Concat(out.value))
    {
      ghost var before := State();
      KeepsCounters(cfg, before, frame, alloc);
      var skb: Option<A.Skb> := None;
      var readyToSend := false;
      if frame.Some? {
        skb, remSkb := remSkb, frame;
      } else {
        readyToSend := true;
      }
      if currSkb.None? {
        currSize := cfg.maxSize;
        if !alloc {
          if skb.Some? {
            Drop(skb.value);
          }
          assert State() == before.(room := cfg.maxSize, rem := remSkb, lost := before.lost + A.Opt(skb));
          return None;
        }
        currFrameNum := 0;
        currFramePayload := 0;
      }
      var out := if currSkb.Some? then currSkb.value else [];
      ghost var start := A.Start(cfg, before, frame);
      assert out == Concat(start.out) by { assert currSkb.None? ==> start.out == []; }
      assert start == A.Packing(start.out, currSize, currFrameNum, currFramePayload, skb, remSkb, readyToSend, lost);
      sent := PackAndClose(out, skb, readyToSend, before, start);
    }

    method PackAndClose(bytes: seq<byte>, held: Option<A.Skb>, flush: bool, ghost before: A.Ctx, ghost start: A.Packing)
      returns (sent: Option<seq<byte>>)
      requires bytes == Concat(start.out) && dropped == |lost|
      requires start == A.Packing(start.out, currSize, currFrameNum, currFramePayload, held, remSkb, flush, lost)
      requires timerPending == before.pending && overhead == before.overhead && reasonMaxDatagram == before.reasonMax
      modifies this
      ensures var (c, out) := A.Close(cfg, before, A.Pack(cfg, start));
        && State() == c
        && (sent.Some? <==> out.Some?)
        && (sent.Some? ==> sent.value == Concat(out.value))
      ensures currSkb.Some? ==> currSkb.value == Concat(frames)
      ensures dropped == |lost|
    {
      var out, skb, n, readyToSend;
      ghost var last;
      out, skb, n, readyToSend, last := PackFrames(bytes, held, flush, start);
      if skb.Some? {
        Drop(skb.value);
      }
      currFrameNum := n;
      frames := last.out;
      sent := CloseAggregate(out, n, readyToSend, before, last);
    }

    // The packing loop, whose locals are `p`.
    method PackFrames(bytes: seq<byte>, held: Option<A.Skb>, flush: bool, ghost start: A.Packing)
      returns (out: seq<byte>, skb: Option<A.Skb>, n: nat, readyToSend: bool, ghost p: A.Packing)
      requires bytes == Concat(start.out) && dropped == |lost|
      requires start == A.Packing(start.out, currSize, currFrameNum, currFramePayload, held, remSkb, flush, lost)
      modifies this`remSkb, this`currSize, this`currFramePayload, this`dropped, this`lost
      ensures p == A.Pack(cfg, start)
      ensures p == A.Packing(p.out, currSize, n, currFramePayload, skb, remSkb, readyToSend, lost)
      ensures out == Concat(p.out) && dropped == |lost|
    {
      out, skb, n, readyToSend, p := bytes, held, currFrameNum, flush, start;
      while n < cfg.maxFrames
        invariant p == A.Packing(p.out, currSize, n, currFramePayload, skb, remSkb, readyToSend, lost)
        invariant out == Concat(p.out) && dropped == |lost|
        invariant A.Pack(cfg, p) == A.Pack(cfg, start)
        decreases cfg.maxFrames - n
      {
        ghost var turn := A.Turn(p).0;
        if skb.None? {
          skb := remSkb;
          remSkb := None;
          if skb.None? {
            p := turn;
            return;
          }
        }
        if currSize < |skb.value| {
          if remSkb.Some? {
            Drop(remSkb.value);
          }
          remSkb := skb;
          skb := None;
          readyToSend := true;
          p := turn;
          return;
        }
        ConcatOne(p.out, skb.value);
        out := out + skb.value;
        currFramePayload := currFramePayload + A.Payload1(skb.value);
        currSize := currSize - |skb.value|;
        skb := None;
        n := n + 1;
        p := turn;
      }
    }

    // The end of aggr_tx_frame: wait for more frames or hand the aggregate out.
    method CloseAggregate(out: seq<byte>, n: nat, readyToSend: bool, ghost before: A.Ctx, ghost p: A.Packing)
      returns (sent: Option<seq<byte>>)
      requires out == Concat(p.out) && frames == p.out && n == p.n == currFrameNum && readyToSend == p.ready
      requires remSkb == p.rem && currSize == p.room && currFramePayload == p.payload && lost == p.lost + A.Opt(p.skb)
      requires timerPending == before.pending && overhead == before.overhead && reasonMaxDatagram == before.reasonMax
      modifies this`currSkb, this`timerPending, this`overhead, this`reasonMaxDatagram,
               this`currFrameNum, this`currSize, this`currFramePayload
      ensures State() == A.Close(cfg, before, p).0
      ensures currSkb.Some? ==> currSkb.value == Concat(frames)
      ensures sent.Some? <==> A.Close(cfg, before, p).1.Some?
      ensures sent.Some? ==> sent.value == Concat(A.Close(cfg, before, p).1.value)
    {
      if n == 0 {
        currSkb := Some(out);
        return None;
      }
      if n < cfg.maxFrames && !readyToSend && cfg.interval > 0 {
        currSkb := Some(out);
        if n < A.RESTART_TIMER_DATAGRAM_CNT {
          timerPending := A.TIMER_PENDING_CNT;
        }
        return None;
      }
      if n == cfg.maxFrames {
        reasonMaxDatagram := reasonMaxDatagram + 1;
      }
      ConcatLength(p.out);
      currSkb := None;
      currFrameNum := 0;
      currSize := 0;
      overhead := overhead + (|out| - currFramePayload);
      currFramePayload := 0;
      sent := Some(out);
    }
  }

  lemma KeepsCounters(cfg: A.Config, c: A.Ctx, frame: Option<A.Skb>, alloc: bool)
    requires A.Consistent(cfg, c)
    ensures A.Consistent(cfg, A.AggrTxFrame(cfg, c, frame, alloc).0)
    ensures !(c.cur.None? && !alloc) ==>
      A.AggrTxFrame(cfg, c, frame, alloc) == A.Close(cfg, c, A.Pack(cfg, A.Start(cfg, c, frame)))
  {
    A.StepAccounts(cfg, c, frame, alloc);
  }

  lemma {:induction false} ConcatLength(fs: seq<A.Skb>)
    ensures |Concat(fs)| == A.Size(fs)
  {
    if fs != [] {
      var init := fs[..|fs| - 1];
      ConcatLength(init);
      ConcatOne(init, fs[|fs| - 1]);
      assert fs == init + [fs[|fs| - 1]];
    }
  }
}
