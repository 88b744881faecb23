// QMAP framing (src/linux/qcom_usbnet/qmap.c, qmap_mux) and its inverse on the
// receive side (src/linux/qcom_usbnet/qcom_usbnet_main.c, GobiNetDriver_rx_fixup).
module Qmap {
  import opened Bytes

  const HEADER: nat := 4
  const MAX_MUX_DEVICES: nat := 3

  // The network devices of one modem: the main one and the virtual ones.
  datatype NetDev = Main | Mux(index: nat)

  predicate InTable(d: NetDev) {
    d.Mux? ==> d.index < MAX_MUX_DEVICES
  }

  // data[1] of each device, as GobiUSBNetProbe assigns it.
  function MuxId(d: NetDev): byte
    requires InTable(d)
  {
    match d
    case Main => 0x81
    case Mux(i) => 0x81 + i + 1
  }

  function Padding(len: nat): (pad: nat)
    ensures pad < 4 && (len + pad) % 4 == 0
  {
    if len % 4 > 0 then 4 - len % 4 else 0
  }

  // ntohs.
  function U16(hi: byte, lo: byte): nat {
    hi as int * 256 + lo as int
  }

  function Zeros(n: nat): seq<byte> { seq(n, _ => 0) }

  /** qmap_mux: header, packet, padding. htons takes 16 bits of the length. */
  function Frame(packet: seq<byte>, mux: byte): seq<byte> {
    var pad := Padding(|packet|);
    var len := (|packet| + pad) % 0x1_0000;
    [pad, mux, len / 256, len % 256] + packet + Zeros(pad)
  }

  /** The frame byte by byte: padding count, mux id, the padded length with its high byte
      first, the packet, and as many zeros as make its length a multiple of four. */
  predicate IsFrameOf(f: seq<byte>, packet: seq<byte>, mux: byte) {
    var pad := (4 - |packet| % 4) % 4;
    && |f| == 4 + |packet| + pad
    && f[0] == pad && f[1] == mux
    && 256 * f[2] as int + f[3] as int == (|packet| + pad) % 65536
    && f[4..4 + |packet|] == packet
    && forall k :: 4 + |packet| <= k < |f| ==> f[k] == 0
  }

  lemma FrameBytes(packet: seq<byte>, mux: byte)
    ensures IsFrameOf(Frame(packet, mux), packet, mux)
  {
  }

  class Skb {
    var data: seq<byte>

    constructor (packet: seq<byte>)
      ensures data == packet
    {
      data := packet;
    }

    /** qmap_mux on the buffer itself. */
    method QmapMux(mux: byte)
      modifies this
      ensures data == Frame(old(data), mux)
      ensures IsFrameOf(data, old(data), mux)
    {
      FrameBytes(data, mux);
      var packetLen := |data|;
      data := Zeros(HEADER) + data;
      data := data[1 := mux];
      var pad: byte := 0;
      if packetLen % 4 > 0 {
        pad := 4 - packetLen % 4;
      }
      var len := (packetLen + pad) % 0x1_0000;
      data := data[2 := len / 256];
      data := data[3 := len % 256];
      data := data[0 := pad];
      if pad > 0 {
        data := data + Zeros(pad);
      }
    }
  }

  // ------------------------------------------------------------------------
  // Splitting an aggregate

  // Where a walk over an aggregate stops: at its end, at a command frame, or where
  // the next header or packet would reach beyond the buffer.
  datatype End = Finished | Command | Truncated

  // A packet and the device it is sent through or delivered to.
  datatype Packet = Packet(dev: NetDev, data: seq<byte>)

  datatype Split = Split(packets: seq<Packet>, end: End)

  // The device a packet goes to when `self` received the aggregate.
  function Route(self: NetDev, mux: byte): NetDev
    requires InTable(self)
  {
    if mux != MuxId(self) && 0x81 <= mux <= 0x84 then
      if mux == 0x81 then Main else Mux(mux - 0x81 - 1)
    else self
  }

  /** Routing inverts the assignment made at probe time, whichever device received
      the aggregate; any other mux id stays with that device. */
  lemma RouteInvertsProbe(self: NetDev, d: NetDev, mux: byte)
    requires InTable(self) && InTable(d)
    ensures Route(self, MuxId(d)) == d
    ensures MuxId(d) as int == if d.Main? then 0x81 else 0x82 + d.index
    ensures InTable(Route(self, mux))
    ensures !(0x81 <= mux <= 0x84) ==> Route(self, mux) == self
  {
  }

  // One turn of the loop in GobiNetDriver_rx_fixup.
  datatype Turn = Stop(end: End) | Skip(next: nat) | Take(packet: Packet, next: nat)

  function TurnAt(self: NetDev, skb: seq<byte>, offset: nat): (t: Turn)
    requires InTable(self) && offset < |skb|
    ensures !t.Stop? ==> offset + HEADER <= t.next
    ensures t.Take? ==> offset + HEADER + |t.packet.data| <= |skb|
  {
    if offset + HEADER > |skb| then Stop(Truncated)
    else
      var pad: nat := skb[offset] % 64;
      var len := U16(skb[offset + 2], skb[offset + 3]);
      var dev := Route(self, skb[offset + 1]);
      if skb[offset] >= 0x80 then Stop(Command)
      else if len - pad > 0 then
        if offset + HEADER + (len - pad) > |skb| then Stop(Truncated)
        else Take(Packet(dev, skb[offset + HEADER..offset + HEADER + (len - pad)]), offset + len + HEADER)
      else Skip(offset + len + HEADER)
  }

  /** GobiNetDriver_rx_fixup on the bytes from `offset` on. */
  function RxFixup(self: NetDev, skb: seq<byte>, offset: nat): Split
    requires InTable(self)
    decreases if offset < |skb| then |skb| - offset else 0
  {
    if offset >= |skb| then Split([], Finished)
    else
      match TurnAt(self, skb, offset)
      case Stop(end) => Split([], end)
      case Skip(next) => RxFixup(self, skb, next)
      case Take(packet, next) =>
        var rest := RxFixup(self, skb, next);
        Split([packet] + rest.packets, rest.end)
  }

  // The loop has found `packets` on its way to `offset`.
  ghost predicate SplitUpTo(self: NetDev, skb: seq<byte>, offset: nat, packets: seq<Packet>)
    requires InTable(self)
  {
    var rest := RxFixup(self, skb, offset);
    RxFixup(self, skb, 0) == Split(packets + rest.packets, rest.end)
  }

  lemma SplitTurn(self: NetDev, skb: seq<byte>, offset: nat, packets: seq<Packet>)
    requires InTable(self) && SplitUpTo(self, skb, offset, packets)
    ensures offset >= |skb| ==> RxFixup(self, skb, 0) == Split(packets, Finished)
    ensures offset < |skb| ==>
      var t := TurnAt(self, skb, offset);
      && (t.Stop? ==> RxFixup(self, skb, 0) == Split(packets, t.end))
      && (t.Skip? ==> SplitUpTo(self, skb, t.next, packets))
      && (t.Take? ==> SplitUpTo(self, skb, t.next, packets + [t.packet]))
  {
    assert packets + [] == packets;
    if offset < |skb| {
      var t := TurnAt(self, skb, offset);
      if t.Take? {
        var rest := RxFixup(self, skb, t.next).packets;
        assert packets + ([t.packet] + rest) == (packets + [t.packet]) + rest;
      }
    }
  }

  /** The loop of GobiNetDriver_rx_fixup. */
  method SplitAggregate(self: NetDev, skb: seq<byte>) returns (packets: seq<Packet>, end: End)
    requires InTable(self)
    ensures Split(packets, end) == RxFixup(self, skb, 0)
  {
    packets := [];
    var offset: nat := 0;
    while offset < |skb|
      invariant SplitUpTo(self, skb, offset, packets)
      decreases |skb| - offset
    {
      SplitTurn(self, skb, offset, packets);
      ghost var turn := TurnAt(self, skb, offset);
      if offset + HEADER > |skb| {
        assert turn == Stop(Truncated);
        return packets, Truncated;
      }
      var pad: nat := skb[offset] % 64;
      var len := U16(skb[offset + 2], skb[offset + 3]);
      var dev := Route(self, skb[offset + 1]);
      if skb[offset] >= 0x80 {
        assert turn == Stop(Command);
        return packets, Command;
      }
      assert !turn.Stop? ==> turn.next == offset + len + HEADER;
      if len - pad > 0 {
        if offset + HEADER + (len - pad) > |skb| {
          assert turn == Stop(Truncated);
          return packets, Truncated;
        }
        assert turn.Take? && turn.packet == Packet(dev, skb[offset + HEADER..offset + HEADER + (len - pad)]);
        packets := packets + [Packet(dev, skb[offset + HEADER..offset + HEADER + (len - pad)])];
      }
      offset := offset + (len + HEADER);
    }
    SplitTurn(self, skb, offset, packets);
    end := Finished;
  }

  // ------------------------------------------------------------------------
  // Round trip

  predicate Sendable(p: Packet) {
    InTable(p.dev) && p.data != []
  }

  // The packet's length, padded, fits the 16-bit length field.
  predicate FitsLength(p: Packet) {
    |p.data| + Padding(|p.data|) <= 0xFFFF
  }

  function Frames(ps: seq<Packet>): seq<seq<byte>>
    requires forall i :: 0 <= i < |ps| ==> Sendable(ps[i])
  {
    seq(|ps|, i requires 0 <= i < |ps| => (assert Sendable(ps[i]); Frame(ps[i].data, MuxId(ps[i].dev))))
  }

  /** Reading on at an offset is reading what follows it. */
  lemma {:induction false} RxFixupSuffix(self: NetDev, before: seq<byte>, skb: seq<byte>, offset: nat)
    requires InTable(self)
    ensures RxFixup(self, before + skb, |before| + offset) == RxFixup(self, skb, offset)
    decreases if offset < |skb| then |skb| - offset else 0
  {
    if offset < |skb| {
      TurnShifts(self, before, skb, offset);
      var t := TurnAt(self, skb, offset);
      if !t.Stop? {
        RxFixupSuffix(self, before, skb, t.next);
      }
      WalksMeet(self, before + skb, |before| + offset, skb, offset, |before|);
    }
  }

  // Two walks whose turns correspond and that find the same behind them find the same.
  lemma WalksMeet(self: NetDev, whole: seq<byte>, at: nat, skb: seq<byte>, offset: nat, n: nat)
    requires InTable(self) && offset < |skb| && at < |whole|
    requires TurnAt(self, whole, at) == Shift(TurnAt(self, skb, offset), n)
    requires Rest(self, whole, TurnAt(self, whole, at)) == Rest(self, skb, TurnAt(self, skb, offset))
    ensures RxFixup(self, whole, at) == RxFixup(self, skb, offset)
  {
    WalkUnfolds(self, skb, offset);
    WalkUnfolds(self, whole, at);
    ResumeShifted(TurnAt(self, skb, offset), n, Rest(self, skb, TurnAt(self, skb, offset)));
  }

  lemma ResumeShifted(t: Turn, n: nat, rest: Split)
    ensures Resume(Shift(t, n), rest) == Resume(t, rest)
  {
  }

  function Shift(t: Turn, n: nat): Turn {
    match t
    case Stop(end) => Stop(end)
    case Skip(next) => Skip(n + next)
    case Take(packet, next) => Take(packet, n + next)
  }

  // What a turn finds, before what is found behind it.
  function Resume(t: Turn, rest: Split): Split {
    match t
    case Stop(end) => Split([], end)
    case Skip(_) => rest
    case Take(packet, _) => Split([packet] + rest.packets, rest.end)
  }

  function Rest(self: NetDev, skb: seq<byte>, t: Turn): Split
    requires InTable(self)
  {
    if t.Stop? then Split([], t.end) else RxFixup(self, skb, t.next)
  }

  lemma WalkUnfolds(self: NetDev, skb: seq<byte>, offset: nat)
    requires InTable(self) && offset < |skb|
    ensures RxFixup(self, skb, offset) == Resume(TurnAt(self, skb, offset), Rest(self, skb, TurnAt(self, skb, offset)))
  {
  }

  lemma TurnShifts(self: NetDev, before: seq<byte>, skb: seq<byte>, offset: nat)
    requires InTable(self) && offset < |skb|
    ensures TurnAt(self, before + skb, |before| + offset) == Shift(TurnAt(self, skb, offset), |before|)
  {
    var whole := before + skb;
    assert forall i :: 0 <= i < |skb| ==> whole[|before| + i] == skb[i];
    var t := TurnAt(self, skb, offset);
    if t.Take? {
      var lo, hi := offset + HEADER, offset + HEADER + |t.packet.data|;
      assert whole[|before| + lo..|before| + hi] == skb[lo..hi];
    }
  }

  /** Any frame that a modem may send, byte by byte: with the command bit clear, the low six
      bits of the first byte count the padding, and the rest of the length is the packet,
      for the device of its mux id. With the command bit set nothing is read. */
  lemma AnyFrameRead(self: NetDev, skb: seq<byte>, offset: nat)
    requires InTable(self) && offset + 4 <= |skb|
    ensures var t, pad, len := TurnAt(self, skb, offset), skb[offset] % 64, 256 * skb[offset + 2] as int + skb[offset + 3] as int;
      var end := offset + 4 + len - pad;
      if skb[offset] >= 128 then t == Stop(Command)
      else if len <= pad then t == Skip(offset + 4 + len)
      else if end > |skb| then t == Stop(Truncated)
      else
        && t.Take? && t.next == offset + 4 + len
        && t.packet.data == skb[offset + 4..end]
        && t.packet.dev == (match skb[offset + 1]
                            case 0x81 => Main
                            case 0x82 => Mux(0)
                            case 0x83 => Mux(1)
                            case 0x84 => Mux(2)
                            case _ => self)
  {
  }

  // One frame at the front is one packet, and the walk goes on behind it.
  lemma FrameThenRest(self: NetDev, p: Packet, rest: seq<byte>)
    requires InTable(self) && Sendable(p) && FitsLength(p)
    ensures var r := RxFixup(self, rest, 0);
      RxFixup(self, Frame(p.data, MuxId(p.dev)) + rest, 0) == Split([p] + r.packets, r.end)
  {
    var frame := Frame(p.data, MuxId(p.dev));
    FirstTurn(self, p, rest);
    RxFixupSuffix(self, frame, rest, 0);
  }

  lemma FirstTurn(self: NetDev, p: Packet, rest: seq<byte>)
    requires InTable(self) && Sendable(p) && FitsLength(p)
    ensures var frame := Frame(p.data, MuxId(p.dev));
      TurnAt(self, frame + rest, 0) == Take(p, |frame|)
  {
    var skb := Frame(p.data, MuxId(p.dev)) + rest;
    var pad := Padding(|p.data|);
    assert skb[0] == pad && skb[1] == MuxId(p.dev);
    assert U16(skb[2], skb[3]) == |p.data| + pad;
    assert skb[HEADER..HEADER + |p.data|] == p.data;
    RouteInvertsProbe(self, p.dev, skb[1]);
  }

  /** Splitting the frames of any packets, with anything behind them, gives those
      packets, on their devices, in order, and then what is behind them. */
  lemma {:induction false} SplitInvertsFrames(self: NetDev, ps: seq<Packet>, rest: seq<byte>)
    requires InTable(self) && forall i :: 0 <= i < |ps| ==> Sendable(ps[i]) && FitsLength(ps[i])
    ensures var r := RxFixup(self, rest, 0);
      RxFixup(self, Concat(Frames(ps)) + rest, 0) == Split(ps + r.packets, r.end)
  {
    var r := RxFixup(self, rest, 0);
    if ps == [] {
      assert Frames(ps) == [];
      assert Concat([]) + rest == rest;
      assert ps + r.packets == r.packets;
    } else {
      SplitInvertsFrames(self, ps[1..], rest);
      SplitStep(self, ps, rest, Split(ps[1..] + r.packets, r.end));
      Regroup(ps, r.packets);
    }
  }

  lemma Regroup(ps: seq<Packet>, qs: seq<Packet>)
    requires ps != []
    ensures [ps[0]] + (ps[1..] + qs) == ps + qs
  {
  }

  lemma SplitStep(self: NetDev, ps: seq<Packet>, rest: seq<byte>, r: Split)
    requires InTable(self) && ps != [] && forall i :: 0 <= i < |ps| ==> Sendable(ps[i])
    requires FitsLength(ps[0]) && RxFixup(self, Concat(Frames(ps[1..])) + rest, 0) == r
    ensures RxFixup(self, Concat(Frames(ps)) + rest, 0) == Split([ps[0]] + r.packets, r.end)
  {
    FrameThenRest(self, ps[0], Concat(Frames(ps[1..])) + rest);
    FramesUnfold(ps, rest);
  }

  lemma FramesUnfold(ps: seq<Packet>, rest: seq<byte>)
    requires ps != [] && forall i :: 0 <= i < |ps| ==> Sendable(ps[i])
    ensures Concat(Frames(ps)) + rest == Frame(ps[0].data, MuxId(ps[0].dev)) + (Concat(Frames(ps[1..])) + rest)
  {
    assert Frames(ps)[1..] == Frames(ps[1..]);
  }

  /** A command frame ends its aggregate: exactly the packets before it are delivered. */
  lemma CommandEndsAggregate(self: NetDev, ps: seq<Packet>, command: seq<byte>)
    requires InTable(self) && forall i :: 0 <= i < |ps| ==> Sendable(ps[i]) && FitsLength(ps[i])
    requires HEADER <= |command| && command[0] >= 0x80
    ensures RxFixup(self, Concat(Frames(ps)) + command, 0) == Split(ps, Command)
  {
    SplitInvertsFrames(self, ps, command);
    assert ps + [] == ps;
  }

  /** One packet survives the trip exactly when its padded length fits the
      length field; a longer one does not come back. */
  lemma RoundTripIffLengthFits(self: NetDev, p: Packet)
    requires InTable(self) && Sendable(p)
    ensures RxFixup(self, Frame(p.data, MuxId(p.dev)), 0) == Split([p], Finished) <==> FitsLength(p)
  {
    var frame := Frame(p.data, MuxId(p.dev));
    if FitsLength(p) {
      FrameThenRest(self, p, []);
      assert frame + [] == frame;
      assert RxFixup(self, [], 0) == Split([], Finished);
    } else {
      OverlongPacketLost(self, p);
    }
  }

  lemma OverlongPacketLost(self: NetDev, p: Packet)
    requires InTable(self) && Sendable(p) && !FitsLength(p)
    ensures var ps := RxFixup(self, Frame(p.data, MuxId(p.dev)), 0).packets;
      ps != [] ==> |ps[0].data| < |p.data|
  {
    var frame := Frame(p.data, MuxId(p.dev));
    OverlongTurn(self, p);
    var t := TurnAt(self, frame, 0);
    PacketsAreShort(self, frame, t.next);
    var ps, rest := RxFixup(self, frame, 0).packets, RxFixup(self, frame, t.next).packets;
    assert t.Take? ==> ps == [t.packet] + rest;
    assert t.Skip? ==> ps == rest;
    assert t.Skip? && ps != [] ==> rest[0] in rest;
  }

  // The truncated length field describes a shorter packet, or none.
  lemma OverlongTurn(self: NetDev, p: Packet)
    requires InTable(self) && Sendable(p) && !FitsLength(p)
    ensures var t := TurnAt(self, Frame(p.data, MuxId(p.dev)), 0);
      t.Skip? || (t.Take? && |t.packet.data| < |p.data|)
  {
    var frame := Frame(p.data, MuxId(p.dev));
    var padded := |p.data| + Padding(|p.data|);
    var len: nat := padded % 0x1_0000;
    assert U16(frame[2], frame[3]) == len && len + 0x1_0000 <= padded;
    assert frame[0] == Padding(|p.data|);
  }

  ghost predicate AllAtMost(ps: seq<Packet>, n: int) {
    forall p :: p in ps ==> |p.data| <= n
  }

  // A packet found from an offset on leaves room for that offset and its header.
  lemma {:induction false} PacketsAreShort(self: NetDev, skb: seq<byte>, offset: nat)
    requires InTable(self)
    ensures AllAtMost(RxFixup(self, skb, offset).packets, |skb| - offset - HEADER)
    decreases if offset < |skb| then |skb| - offset else 0
  {
    if offset < |skb| {
      var t := TurnAt(self, skb, offset);
      if !t.Stop? {
        PacketsAreShort(self, skb, t.next);
        var rest := RxFixup(self, skb, t.next).packets;
        assert RxFixup(self, skb, offset).packets == if t.Take? then [t.packet] + rest else rest;
      }
    }
  }
}
