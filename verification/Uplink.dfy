// Framing, aggregation and splitting end to end: what is sent through the
// devices of one modem comes back, packet by packet, from the aggregates it was packed into.
module Uplink {
  import opened Bytes
  import Q = Qmap
  import A = Aggregator

  // GobiNetDriver_tx_fixup: a packet to send, or None for a flush.
  type Sends = seq<Option<Q.Packet>>

  ghost predicate Acceptable(cfg: A.Config, sends: Sends) {
    forall i :: 0 <= i < |sends| && sends[i].Some? ==>
      && Q.Sendable(sends[i].value)
      && Q.FitsLength(sends[i].value)
      && |Q.Frame(sends[i].value.data, Q.MuxId(sends[i].value.dev))| <= cfg.maxSize
  }

  function Calls(sends: Sends): seq<A.Call>
    requires forall i :: 0 <= i < |sends| && sends[i].Some? ==> Q.Sendable(sends[i].value)
  {
    if sends == [] then []
    else
      var skb := match sends[0]
        case None => None
        case Some(p) => (assert Q.Sendable(sends[0].value); Some(Q.Frame(p.data, Q.MuxId(p.dev))));
      [A.Call(skb, true)] + Calls(sends[1..])
  }

  function Packets(sends: Sends): seq<Q.Packet> {
    if sends == [] then []
    else (if sends[0].Some? then [sends[0].value] else []) + Packets(sends[1..])
  }

  lemma {:induction false} PacketsSendable(cfg: A.Config, sends: Sends)
    requires Acceptable(cfg, sends)
    ensures forall p :: p in Packets(sends) ==> Q.Sendable(p) && Q.FitsLength(p)
  {
    if sends != [] {
      PacketsSendable(cfg, sends[1..]);
    }
  }

  // The calls are within the terms of RunInOrder.
  lemma {:induction false} CallsFit(cfg: A.Config, sends: Sends)
    requires Acceptable(cfg, sends)
    ensures |Calls(sends)| == |sends|
    ensures forall i :: 0 <= i < |sends| ==>
      var call := Calls(sends)[i];
      call.alloc && A.Fits(cfg, A.Opt(call.skb)) && (call.skb.None? <==> sends[i].None?)
  {
    if sends != [] {
      CallsFit(cfg, sends[1..]);
      assert Calls(sends)[1..] == Calls(sends[1..]);
    }
  }

  // What they hand over is the frames.
  lemma {:induction false} CallsCarryFrames(cfg: A.Config, sends: Sends)
    requires Acceptable(cfg, sends)
    ensures forall p :: p in Packets(sends) ==> Q.Sendable(p)
    ensures A.Accepted(Calls(sends)) == Q.Frames(Packets(sends))
  {
    PacketsSendable(cfg, sends);
    if sends != [] {
      CallsCarryFrames(cfg, sends[1..]);
      assert Calls(sends)[1..] == Calls(sends[1..]);
      var ps := Packets(sends[1..]);
      if sends[0].Some? {
        FramesCons(sends[0].value, ps);
      } else {
        assert [] + ps == ps;
        assert [] + Q.Frames(ps) == Q.Frames(ps);
      }
    }
  }

  lemma FramesCons(p: Q.Packet, ps: seq<Q.Packet>)
    requires Q.Sendable(p) && forall q :: q in ps ==> Q.Sendable(q)
    ensures Q.Frames([p] + ps) == [Q.Frame(p.data, Q.MuxId(p.dev))] + Q.Frames(ps)
  {
  }

  // Cutting a list of frames is cutting the packets.
  lemma FramesCut(fs: seq<A.Skb>, gs: seq<A.Skb>, ps: seq<Q.Packet>)
    requires forall p :: p in ps ==> Q.Sendable(p)
    requires fs + gs == Q.Frames(ps)
    ensures |fs| <= |ps| && fs == Q.Frames(ps[..|fs|]) && gs == Q.Frames(ps[|fs|..])
  {
    assert |fs + gs| == |ps|;
    assert fs == (fs + gs)[..|fs|] && gs == (fs + gs)[|fs|..];
  }

  // Every emitted aggregate through rx_fixup, in turn.
  function SplitAll(self: Q.NetDev, outs: seq<seq<A.Skb>>): seq<Q.Packet>
    requires Q.InTable(self)
  {
    if outs == [] then []
    else Q.RxFixup(self, Concat(outs[0]), 0).packets + SplitAll(self, outs[1..])
  }

  ghost predicate AllFinish(self: Q.NetDev, outs: seq<seq<A.Skb>>)
    requires Q.InTable(self)
  {
    forall i :: 0 <= i < |outs| ==> Q.RxFixup(self, Concat(outs[i]), 0).end == Q.Finished
  }

  /** However frames are cut into aggregates, splitting the aggregates in turn gives the packets back. */
  lemma {:induction false} SplitAllInverts(self: Q.NetDev, outs: seq<seq<A.Skb>>, ps: seq<Q.Packet>)
    requires Q.InTable(self) && forall p :: p in ps ==> Q.Sendable(p) && Q.FitsLength(p)
    requires A.Flatten(outs) == Q.Frames(ps)
    ensures SplitAll(self, outs) == ps && AllFinish(self, outs)
  {
    if outs != [] {
      FramesCut(outs[0], A.Flatten(outs[1..]), ps);
      var a, b := ps[..|outs[0]|], ps[|outs[0]|..];
      SplitAllInverts(self, outs[1..], b);
      SplitOne(self, a);
      assert a + b == ps;
    }
  }

  lemma SplitOne(self: Q.NetDev, ps: seq<Q.Packet>)
    requires Q.InTable(self) && forall p :: p in ps ==> Q.Sendable(p) && Q.FitsLength(p)
    ensures Q.RxFixup(self, Concat(Q.Frames(ps)), 0) == Q.Split(ps, Q.Finished)
  {
    Q.SplitInvertsFrames(self, ps, []);
    assert Q.RxFixup(self, [], 0) == Q.Split([], Q.Finished);
    assert Concat(Q.Frames(ps)) + [] == Concat(Q.Frames(ps));
    assert ps + [] == ps;
  }

  /** In every run, splitting the aggregates emitted so far yields exactly the oldest
      packets sent, on their devices and in order; the frames of the others are held,
      and none are once a flush has been made. */
  lemma RoundTrip(self: Q.NetDev, cfg: A.Config, sends: Sends)
    requires Q.InTable(self) && 1 <= cfg.maxFrames && Acceptable(cfg, sends)
    ensures var (c, outs) := A.Run(cfg, A.INITIAL, Calls(sends));
      var n := |SplitAll(self, outs)|;
      && (forall p :: p in Packets(sends) ==> Q.Sendable(p))
      && n <= |Packets(sends)|
      && SplitAll(self, outs) == Packets(sends)[..n]
      && A.Held(c) == Q.Frames(Packets(sends)[n..])
      && AllFinish(self, outs)
      && (sends != [] && sends[|sends| - 1].None? ==> SplitAll(self, outs) == Packets(sends))
  {
    PacketsSendable(cfg, sends);
    CallsFit(cfg, sends);
    SentAndHeld(cfg, sends);
    A.RunInOrder(cfg, A.INITIAL, Calls(sends));
    var (c, outs) := A.Run(cfg, A.INITIAL, Calls(sends));
    SplitPrefix(self, outs, A.Held(c), Packets(sends));
    if A.Held(c) == [] {
      assert |A.Held(c)| == 0;
    }
  }

  lemma SplitPrefix(self: Q.NetDev, outs: seq<seq<A.Skb>>, held: seq<A.Skb>, ps: seq<Q.Packet>)
    requires Q.InTable(self) && forall p :: p in ps ==> Q.Sendable(p) && Q.FitsLength(p)
    requires A.Flatten(outs) + held == Q.Frames(ps)
    ensures var n := |SplitAll(self, outs)|;
      n <= |ps| && SplitAll(self, outs) == ps[..n] && held == Q.Frames(ps[n..]) && AllFinish(self, outs)
    ensures held == [] ==> SplitAll(self, outs) == ps
  {
    var n := |A.Flatten(outs)|;
    FramesCut(A.Flatten(outs), held, ps);
    SplitAllInverts(self, outs, ps[..n]);
    assert held == [] ==> ps[..n] == ps;
  }

  // ------------------------------------------------------------------------
  // What the driver counts

  function PacketBytes(ps: seq<Q.Packet>): nat {
    if ps == [] then 0 else PacketBytes(ps[..|ps| - 1]) + |ps[|ps| - 1].data|
  }

  function HeadersAndPadding(ps: seq<Q.Packet>): nat {
    if ps == [] then 0 else HeadersAndPadding(ps[..|ps| - 1]) + Q.HEADER + Q.Padding(|ps[|ps| - 1].data|)
  }

  /** The payload counted for the frames of any packets is the sum of the packets'
      lengths; the overhead is four bytes and the padding for each. */
  lemma {:induction false} FramesCount(ps: seq<Q.Packet>)
    requires forall p :: p in ps ==> Q.Sendable(p)
    ensures A.Payload(Q.Frames(ps)) == PacketBytes(ps)
    ensures A.Size(Q.Frames(ps)) == PacketBytes(ps) + HeadersAndPadding(ps)
    ensures A.Overhead(Q.Frames(ps)) == HeadersAndPadding(ps)
  {
    A.OverheadIsSizeMinusPayload(Q.Frames(ps));
    if ps != [] {
      var most, last := ps[..|ps| - 1], ps[|ps| - 1];
      FramesCount(most);
      assert Q.Frames(ps)[..|ps| - 1] == Q.Frames(most);
      OneFrameCounts(last);
    }
  }

  lemma OneFrameCounts(p: Q.Packet)
    requires Q.Sendable(p)
    ensures var f := Q.Frame(p.data, Q.MuxId(p.dev));
      A.Payload1(f) == |p.data| && |f| == Q.HEADER + |p.data| + Q.Padding(|p.data|)
  {
  }

  /** In a run in which everything fits, that is the overhead of exactly the packets sent so far. */
  lemma RoundTripCounts(self: Q.NetDev, cfg: A.Config, sends: Sends)
    requires Q.InTable(self) && 1 <= cfg.maxFrames && Acceptable(cfg, sends)
    ensures var (c, outs) := A.Run(cfg, A.INITIAL, Calls(sends));
      var sent := SplitAll(self, outs);
      sent <= Packets(sends) && c.overhead == HeadersAndPadding(sent)
  {
    RoundTrip(self, cfg, sends);
    var (c, outs) := A.Run(cfg, A.INITIAL, Calls(sends));
    SentAndHeld(cfg, sends);
    SentCounts(A.Flatten(outs), A.Held(c), Packets(sends), |SplitAll(self, outs)|);
  }

  lemma SentAndHeld(cfg: A.Config, sends: Sends)
    requires 1 <= cfg.maxFrames && Acceptable(cfg, sends)
    ensures forall p :: p in Packets(sends) ==> Q.Sendable(p)
    ensures var (c, outs) := A.Run(cfg, A.INITIAL, Calls(sends));
      A.Flatten(outs) + A.Held(c) == Q.Frames(Packets(sends)) && c.overhead == A.Overhead(A.Flatten(outs))
  {
    CallsFit(cfg, sends);
    CallsCarryFrames(cfg, sends);
    A.RunInOrder(cfg, A.INITIAL, Calls(sends));
    A.RunAccounts(cfg, A.INITIAL, Calls(sends));
    assert A.Held(A.INITIAL) == [];
    assert [] + A.Accepted(Calls(sends)) == A.Accepted(Calls(sends));
  }

  lemma SentCounts(sent: seq<A.Skb>, held: seq<A.Skb>, ps: seq<Q.Packet>, n: nat)
    requires (forall p :: p in ps ==> Q.Sendable(p)) && n <= |ps|
    requires sent + held == Q.Frames(ps) && held == Q.Frames(ps[n..])
    ensures A.Overhead(sent) == HeadersAndPadding(ps[..n])
  {
    FramesCut(sent, held, ps);
    assert |sent + held| == |ps| && |held| == |ps| - n;
    FramesCount(ps[..n]);
  }

  // This is what qmap_mux made of some packet.
  ghost predicate IsFrame(f: A.Skb) {
    exists p: Q.Packet :: Q.Sendable(p) && f == Q.Frame(p.data, Q.MuxId(p.dev))
  }

  lemma {:induction false} Unframe(fs: seq<A.Skb>) returns (ps: seq<Q.Packet>)
    requires forall f :: f in fs ==> IsFrame(f)
    ensures forall p :: p in ps ==> Q.Sendable(p)
    ensures Q.Frames(ps) == fs
  {
    ps := [];
    if fs != [] {
      var rest := Unframe(fs[1..]);
      assert IsFrame(fs[0]);
      var p: Q.Packet :| Q.Sendable(p) && fs[0] == Q.Frame(p.data, Q.MuxId(p.dev));
      FramesCons(p, rest);
      ps := [p] + rest;
    }
  }

  /** In every run on framed packets, with flushes, oversize frames and failed allocations:
      the frames sent are the frames of some packets, tx_overhead is four bytes and the
      padding of each, and the bytes sent are that and the packets themselves. */
  lemma RunCounts(cfg: A.Config, calls: seq<A.Call>) returns (ps: seq<Q.Packet>)
    requires forall i :: 0 <= i < |calls| && calls[i].skb.Some? ==> IsFrame(calls[i].skb.value)
    ensures forall p :: p in ps ==> Q.Sendable(p)
    ensures var (c, outs) := A.Run(cfg, A.INITIAL, calls);
      && A.Flatten(outs) == Q.Frames(ps)
      && multiset(A.Flatten(outs)) <= multiset(A.Accepted(calls))
      && c.overhead == HeadersAndPadding(ps)
      && A.Size(A.Flatten(outs)) == c.overhead + PacketBytes(ps)
  {
    A.RunAccounts(cfg, A.INITIAL, calls);
    var (c, outs) := A.Run(cfg, A.INITIAL, calls);
    SentWasAccepted(A.Held(A.INITIAL), A.Accepted(calls), A.Flatten(outs), A.Held(c), c.lost);
    AcceptedAreFrames(calls);
    forall f | f in A.Flatten(outs)
      ensures IsFrame(f)
    {
      assert f in multiset(A.Flatten(outs));
      assert f in multiset(A.Accepted(calls));
    }
    ps := Unframe(A.Flatten(outs));
    FramesCount(ps);
  }

  lemma SentWasAccepted(before: seq<A.Skb>, accepted: seq<A.Skb>, sent: seq<A.Skb>, held: seq<A.Skb>, lost: seq<A.Skb>)
    requires before == []
    requires multiset(before) + multiset(accepted) + multiset([]) == multiset(sent) + multiset(held) + multiset(lost)
    ensures multiset(sent) <= multiset(accepted)
  {
    forall x
      ensures multiset(sent)[x] <= multiset(accepted)[x]
    {
      assert multiset(before) + multiset(accepted) + multiset([]) == multiset(accepted);
      assert multiset(accepted)[x] == (multiset(sent) + multiset(held) + multiset(lost))[x];
    }
  }

  lemma {:induction false} AcceptedAreFrames(calls: seq<A.Call>)
    requires forall i :: 0 <= i < |calls| && calls[i].skb.Some? ==> IsFrame(calls[i].skb.value)
    ensures forall f :: f in A.Accepted(calls) ==> IsFrame(f)
  {
    if calls != [] {
      AcceptedAreFrames(calls[1..]);
      assert forall f :: f in A.Accepted(calls) ==> f in A.Opt(calls[0].skb) || f in A.Accepted(calls[1..]);
    }
  }
}
