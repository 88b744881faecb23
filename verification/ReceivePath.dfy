// The receive path in the driver's own form: one device object whose buffer,
// indices and lists are updated in place. Each method is proved to do what
// the function of the same name in Receive or ReadRing says.
module ReceivePath {
  import opened Bytes
  import opened Lists
  import opened ReadRing
  import R = Receive

  class Device {
    const buf: array<byte>
    var start: nat
    var end: nat
    var empty: bool
    var nodes: seq<R.Node>
    var size: nat
    var submitted: seq<bool>
    var payload: seq<seq<byte>>
    var flying: set<nat>
    var returning: set<nat>
    var pool: seq<R.Slot>
    var notify: seq<nat>

    ghost function Buffer(): Ring
      reads this, buf
    {
      Ring(buf[..], start, end, empty)
    }

    ghost function State(): R.Dev
      reads this, buf
    {
      R.Dev(Buffer(), nodes, size, submitted, payload, flying, returning, pool, notify)
    }

    // QdssOpen leaves an empty buffer, idle nodes and an unused pool.
    constructor (capacity: nat, urbs: nat, slots: nat)
      requires 0 < capacity
      ensures fresh(buf) && State().Shape() && Buffer().Contents() == []
      ensures R.QueueOk(State()) && size == 0 && |nodes| == urbs && |pool| == slots && notify == []
      ensures forall k :: 0 <= k < slots ==> pool[k] == R.Slot(false, false, false)
    {
      buf := new byte[capacity](_ => 0);
      start, end, empty := 0, 0, true;
      nodes, size := seq(urbs, _ => R.Idle), 0;
      submitted, payload := seq(urbs, _ => false), seq(urbs, _ => []);
      flying, returning := {}, {};
      pool, notify := seq(slots, _ => R.Slot(false, false, false)), [];
    }

    method ReadBufferFreeSpace() returns (free: nat)
      requires Buffer().Valid()
      ensures free == Buffer().FreeSpace() && free + |Buffer().Contents()| == buf.Length
    {
      FreeSpaceIsCapacityMinusStored(Buffer());
      free := 0;
      if empty {
        free := buf.Length;
      } else if start < end {
        free := buf.Length - (end - start);
      } else if start > end {
        free := start - end;
      }
    }

    method AddToReadMemList(block: seq<byte>) returns (taken: bool)
      requires Buffer().Valid() && 0 < |block|
      modifies this`end, this`empty, buf
      ensures (Buffer(), taken) == old(Buffer()).Add(block)
      ensures Buffer().Valid()
      ensures taken <==> |block| <= old(Buffer().FreeSpace())
      ensures Buffer().Contents() == if taken then old(Buffer().Contents()) + block else old(Buffer().Contents())
    {
      AddRefinesFifo(Buffer(), block);
      if start <= end {
        if start == end && !empty {
          return false;
        }
        if |block| <= buf.Length - (end - start) {
          var partial := if |block| <= buf.Length - end then |block| else buf.Length - end;
          Memmove(buf, end, block[..partial]);
          if |block| != partial {
            Memmove(buf, 0, block[partial..]);
            end := |block| - partial;
          } else {
            assert block[..partial] == block;
            end := end + |block|;
          }
        } else {
          return false;
        }
      } else if |block| <= start - end {
        Memmove(buf, end, block);
        end := end + |block|;
      } else {
        return false;
      }
      empty := false;
      taken := true;
    }

    method AddToQueue(urb: nat)
      requires urb < |submitted|
      modifies this`nodes, this`submitted, this`size
      ensures State() == R.AddToQueue(old(State()), urb)
    {
      ghost var k := R.FirstIdle(nodes);
      for i := 0 to |nodes|
        invariant i <= k
        invariant State() == old(State())
      {
        if nodes[i].Idle? {
          submitted := submitted[urb := false];
          nodes := nodes[i := R.Busy(urb)];
          size := size + 1;
          return;
        }
      }
    }

    method NotifyUserRequest(evt: Option<nat>)
      requires Buffer().Valid() && forall i :: 0 <= i < |notify| ==> notify[i] < |pool|
      modifies this`pool
      ensures State() == R.Notify(old(State()), evt)
    {
      if notify == [] {
        return;
      }
      var free := ReadBufferFreeSpace();
      if buf.Length - free == 0 {
        return;
      }
      var head := notify[0];
      if (evt.None? || evt.value == head) && !pool[head].inProcess {
        pool := pool[head := pool[head].(inProcess := true)];
        pool := pool[head := pool[head].(fill := true)];
        assert pool == old(pool)[head := old(pool)[head].(inProcess := true, fill := true)];
      }
    }

    method AllocateRxNotifyItem() returns (k: nat)
      ensures k == R.FirstFree(pool)
    {
      k := 0;
      while k < |pool| && pool[k].used
        invariant k <= R.FirstFree(pool)
      {
        k := k + 1;
      }
    }

    method AddToNotifyList() returns (slot: Option<nat>)
      modifies this`pool, this`notify
      ensures match R.AddToNotifyList(old(State()))
        case None => slot == None && State() == old(State())
        case Some((d, k)) => slot == Some(k) && State() == d
    {
      var k := AllocateRxNotifyItem();
      if k == |pool| {
        return None;
      }
      notify := notify + [k];
      pool := pool[k := pool[k].(used := true)];
      pool := pool[k := pool[k].(inProcess := false)];
      assert pool == old(pool)[k := R.Slot(true, false, old(pool)[k].fill)];
      slot := Some(k);
    }

    method RemoveNotification(slot: nat)
      requires slot < |pool|
      modifies this`pool, this`notify
      ensures State() == R.RemoveNotification(old(State()), slot)
    {
      var i := 0;
      while i < |notify|
        invariant i <= |notify|
        invariant State() == old(State())
        invariant slot !in notify[..i]
        invariant Without(notify, slot) == notify[..i] + Without(notify[i..], slot)
      {
        if notify[i] == slot {
          notify := notify[..i] + notify[i + 1..];
          pool := pool[slot := R.Slot(false, false, pool[slot].fill)];
          return;
        }
        i := i + 1;
      }
    }

    method PopFromQueueAndSubmit(accepts: set<nat>) returns (more: bool)
      requires State().Shape()
      modifies this, buf
      ensures (State(), more) == R.Pop(old(State()), accepts)
    {
      if size == 0 {
        return false;
      }
      var k := FindBusyNode();
      if k == |nodes| {
        return false;
      }
      var free := ReadBufferFreeSpace();
      if free < |payload[nodes[k].urb]| {
        return false;
      }
      more := PopNode(k, accepts);
    }

    method PopNode(k: nat, accepts: set<nat>) returns (more: bool)
      requires State().Shape() && k < |nodes| && nodes[k].Busy? && 0 < size
      modifies this, buf
      ensures (State(), more) == R.PopNode(old(State()), k, accepts)
    {
      ghost var d := State();
      var urb := nodes[k].urb;
      nodes := nodes[k := R.Idle];
      size := size - 1;
      nodes := R.RotateLeft(nodes);
      ghost var d1 := d.(nodes := R.RotateLeft(d.nodes[k := R.Idle]), size := d.size - 1);
      more := StoreOrPark(urb, d1);
      if more {
        NotifyUserRequest(None);
        ResubmitPopped(urb, accepts);
      }
    }

    // The block goes into the buffer or, failing that, back onto the queue.
    method StoreOrPark(urb: nat, ghost d: R.Dev) returns (taken: bool)
      requires State() == d && Buffer().Valid() && urb < |payload| == |submitted| && 0 < |payload[urb]|
      modifies this`end, this`empty, this`nodes, this`submitted, this`size, buf
      ensures taken == d.ring.Add(d.payload[urb]).1
      ensures Buffer().Valid()
      ensures State() == if taken then d.(ring := d.ring.Add(d.payload[urb]).0) else R.AddToQueue(d, urb)
    {
      AddRefinesFifo(d.ring, d.payload[urb]);
      taken := AddToReadMemList(payload[urb]);
      if !taken {
        assert State() == d;
        AddToQueue(urb);
      }
    }

    method FindBusyNode() returns (k: nat)
      ensures k == R.FirstBusy(nodes)
    {
      k := 0;
      while k < |nodes| && nodes[k].Idle?
        invariant k <= R.FirstBusy(nodes)
      {
        k := k + 1;
      }
    }

    method ResubmitPopped(urb: nat, accepts: set<nat>)
      requires urb < |submitted|
      modifies this`flying, this`submitted
      ensures State() == R.Submit(old(State()), urb, accepts)
    {
      if !submitted[urb] {
        if urb in accepts {
          flying := flying + {urb};
          submitted := submitted[urb := true];
        }
      }
    }

    /** The part of BlkCallback that runs under the lock, for a completion with data. */
    method BlkCallback(urb: nat, block: seq<byte>)
      requires State().Shape() && urb < |nodes| && 0 < |block|
      modifies this, buf
      ensures State() == R.BlkCallback(old(State()), urb, block)
    {
      payload := payload[urb := block];
      flying := flying - {urb};
      AddRefinesFifo(Buffer(), block);
      if size > 0 {
        AddToQueue(urb);
        return;
      }
      var taken := StoreOrPark(urb, State());
      if taken {
        returning := returning + {urb};
        NotifyUserRequest(None);
      }
    }

    method Drain(accepts: set<nat>)
      requires State().Shape()
      modifies this, buf
      ensures State() == R.Drain(old(State()), accepts)
    {
      var more := true;
      while more
        invariant State().Shape()
        invariant R.Drain(old(State()), accepts) == if more then R.Drain(State(), accepts) else State()
        decreases size, more
      {
        R.DrainUnfolds(State(), accepts);
        more := PopFromQueueAndSubmit(accepts);
      }
    }

    /** CopyFromReadMemList up to the first copy, where it drops the lock. */
    method BeginCopy(want: nat) returns (c: Option<Copy>)
      requires Buffer().Valid() && 0 < want
      ensures c == Begin(Buffer(), want)
      ensures c.None? <==> Buffer().Contents() == []
      ensures c.Some? ==> InProgress(Buffer(), c.value)
    {
      BeginCorrect(Buffer(), want);
      if start < end {
        c := if end - start > want then Some(Part(start, want)) else Some(All(start, end));
      } else if !empty {
        if buf.Length - start >= want {
          c := Some(Flat(start, want));
        } else if buf.Length - start == 0 {
          c := Some(SecondLegFrom(0, want));
        } else {
          c := Some(Leg1(start, buf.Length, want));
        }
      } else {
        c := None;
      }
    }

    function SecondLegFrom(leg1: nat, want: nat): Copy
      requires leg1 < want
      reads this
    {
      if end > want - leg1 then Leg2(leg1, want - leg1) else Leg2All(leg1, end)
    }

    /** CopyFromReadMemList after a copy, with the lock retaken: it goes on to the second
        leg, or removes what was copied, whatever has arrived meanwhile. */
    method EndCopy(c: Copy, want: nat, ghost owed: nat) returns (next: Option<Copy>)
      requires InProgress(Buffer(), c) && Bounds(Buffer(), c, want, owed)
      modifies this`start, this`empty
      ensures match Retake(old(Buffer()), c)
        case More(leg2) => next == Some(leg2) && Buffer() == old(Buffer())
        case Done(r) => next == None && Buffer() == r
      ensures Buffer().Valid()
      ensures next.None? ==> Buffer().Contents() == old(Buffer().Contents())[c.Before() + (c.To() - c.From())..]
    {
      ghost var ring := Buffer();
      RetakeCorrect(ring, c, want, owed);
      next := None;
      match c {
        case Part(_, len) => start := start + len;
        case Flat(_, len) => start := (start + len) % buf.Length;
        case Leg2(_, len) => start := len;
        case Leg1(from, edge, w) => next := Some(SecondLegFrom(edge - from, w));
        case All(_, endSeen) =>
          start := endSeen;
          if start == end {
            empty := true;
          }
        case Leg2All(_, endSeen) =>
          start := endSeen;
          if start == end {
            empty := true;
          }
      }
      assert Buffer() == if c.Leg1? then ring else Retake(ring, c).ring;
    }

    /** CopyFromReadMemList when nothing arrives while it copies: `user` receives the
        oldest bytes, as many as are asked for or stored, and the queue is drained. */
    method CopyFromReadMemList(want: nat, accepts: set<nat>) returns (user: seq<byte>)
      requires State().Shape() && 0 < want
      modifies this, buf
      ensures user == old(Buffer().Contents())[..Min(want, |old(Buffer().Contents())|)]
      ensures exists r: Ring ::
        (r.Valid()
        && r.Contents() == old(Buffer().Contents())[|user|..]
        && State() == if user == [] then old(State()) else R.Drain(old(State()).(ring := r), accepts))
    {
      ghost var ring := Buffer();
      BeginCorrect(ring, want);
      FreeSpaceIsCapacityMinusStored(ring);
      if start >= end && empty {
        assert ring.Contents()[|ring.Contents()|..] == ring.Contents();
        return [];
      }
      user := CopyOut(want);
      ghost var r := Buffer();
      assert old(State()).(ring := r) == State();
      Drain(accepts);
    }

    // The copying branches, up to the drain loop.
    method CopyOut(want: nat) returns (user: seq<byte>)
      requires Buffer().Valid() && 0 < want && !empty
      modifies this`start, this`empty
      ensures user == old(Buffer().Contents())[..Min(want, |old(Buffer().Contents())|)] && user != []
      ensures Buffer().Valid() && Buffer().Contents() == old(Buffer().Contents())[|user|..]
    {
      ghost var ring := Buffer();
      FreeSpaceIsCapacityMinusStored(ring);
      ReadAloneReturnsMin(ring, want);
      if start < end {
        user := CopyBeforeEnd(want);
      } else if buf.Length - start >= want {
        user := buf[start..start + want];
        start := (start + want) % buf.Length;
        assert (user, Buffer()) == ReadAlone(ring, Flat(ring.start, want));
      } else {
        user := CopyAcrossEdge(want);
      }
    }

    method CopyBeforeEnd(want: nat) returns (user: seq<byte>)
      requires Buffer().Valid() && 0 < want && start < end
      modifies this`start, this`empty
      ensures Begin(old(Buffer()), want).Some? && InProgress(old(Buffer()), Begin(old(Buffer()), want).value)
      ensures (user, Buffer()) == ReadAlone(old(Buffer()), Begin(old(Buffer()), want).value)
    {
      if end - start > want {
        user := buf[start..start + want];
        start := start + want;
      } else {
        user := buf[start..end];
        start := end;
        empty := true;
      }
    }

    method CopyAcrossEdge(want: nat) returns (user: seq<byte>)
      requires Buffer().Valid() && !empty && end <= start && buf.Length - start < want
      modifies this`start, this`empty
      ensures Begin(old(Buffer()), want).Some? && InProgress(old(Buffer()), Begin(old(Buffer()), want).value)
      ensures (user, Buffer()) == ReadAlone(old(Buffer()), Begin(old(Buffer()), want).value)
    {
      ghost var ring := Buffer();
      ghost var next := SecondLeg(ring, buf.Length - start, want);
      user := buf[start..];
      ghost var leg1 := user;
      var leg2 := want - |user|;
      if end > leg2 {
        user := user + buf[..leg2];
        start := leg2;
      } else {
        user := user + buf[..end];
        start := end;
        empty := true;
      }
      assert InProgress(ring, next);
      assert ReadAlone(ring, next) == (ring.buf[next.From()..next.To()], Buffer());
      assert user == leg1 + ring.buf[next.From()..next.To()];
      if leg1 != [] {
        var c := Leg1(ring.start, |ring.buf|, want);
        assert Begin(ring, want) == Some(c) && ring.buf[c.From()..c.To()] == leg1;
        assert Retake(ring, c) == More(next);
        assert ReadAlone(ring, c) == (leg1 + ReadAlone(ring, next).0, ReadAlone(ring, next).1);
      } else {
        assert Begin(ring, want) == Some(next);
        assert user == ring.buf[next.From()..next.To()];
      }
    }
  }
}
