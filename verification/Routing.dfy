// Delivery of QMI messages to the clients of a modem
// (src/linux/qcom_usbnet/qmidevice.c): one list of clients for the main device
// and one for each multiplexed device, and a queue of unread messages per client.
module Routing {
  import opened Bytes
  import Qmi
  import R = Requests

  type u16 = Qmi.u16

  datatype Message = Message(transaction: u16, data: seq<byte>)

  // sClientMemList: the client's id and its list of unread messages.
  datatype Client = Client(id: u16, unread: seq<Message>)

  type Clients = seq<Client>

  ghost predicate Distinct(cs: Clients) {
    forall i, j :: 0 <= i < j < |cs| ==> cs[i].id != cs[j].id
  }

  function Find(cs: Clients, id: u16): (k: nat)
    ensures k <= |cs|
    ensures k < |cs| ==> cs[k].id == id
    ensures forall i :: 0 <= i < k ==> cs[i].id != id
  {
    if cs == [] || cs[0].id == id then 0 else 1 + Find(cs[1..], id)
  }

  /** A message is for a client when it carries its id, or the broadcast id 0xff of its
      service (the low byte of an id). */
  predicate Addressed(id: u16, to: u16) {
    id == to || 0xff00 + id % 256 == to
  }

  predicate Broadcast(to: u16) { to / 256 == 0xff }

  // The scan of one list in ReadCallback, which stops at the first match unless broadcasting.
  function Deliver(cs: Clients, to: u16, m: Message): Clients {
    if cs == [] then []
    else if Addressed(cs[0].id, to) then
      [cs[0].(unread := cs[0].unread + [m])] + if Broadcast(to) then Deliver(cs[1..], to, m) else cs[1..]
    else [cs[0]] + Deliver(cs[1..], to, m)
  }

  /** With distinct ids, stopping early misses nobody: every client the message is for gets
      it, behind what it has, and no other client sees it. */
  lemma {:induction false} DeliverReachesAddressed(cs: Clients, to: u16, m: Message)
    requires Distinct(cs)
    ensures var r := Deliver(cs, to, m);
      && |r| == |cs|
      && forall k :: 0 <= k < |cs| ==>
           r[k] == if Addressed(cs[k].id, to) then cs[k].(unread := cs[k].unread + [m]) else cs[k]
  {
    if cs != [] {
      DeliverReachesAddressed(cs[1..], to, m);
      if Addressed(cs[0].id, to) && !Broadcast(to) {
        assert cs[0].id == to;
      }
    }
  }

  // The first unread message of a transaction; transaction 0 is any.
  function Oldest(unread: seq<Message>, transaction: u16): (k: nat)
    ensures k <= |unread|
    ensures k < |unread| ==> Matches(unread[k], transaction)
    ensures forall i :: 0 <= i < k ==> !Matches(unread[i], transaction)
  {
    if unread == [] || Matches(unread[0], transaction) then 0 else 1 + Oldest(unread[1..], transaction)
  }

  predicate Matches(m: Message, transaction: u16) {
    transaction == 0 || m.transaction == transaction
  }

  // ------------------------------------------------------------------------
  // The modem: one list of clients per device

  type Modem = seq<Clients>

  datatype Event =
    | Arrive(to: u16, m: Message)                       // ReadCallback
    | Pop(dev: nat, id: u16, transaction: u16)          // PopFromReadMemList
    | Create(dev: nat, id: u16)                         // the end of GetClientID
    | Release(dev: nat, id: u16)                        // the end of ReleaseClientID

  function PopAt(cs: Clients, id: u16, transaction: u16): (Clients, Option<Message>) {
    var c := Find(cs, id);
    if c == |cs| then (cs, None)
    else
      var k := Oldest(cs[c].unread, transaction);
      if k == |cs[c].unread| then (cs, None)
      else (cs[c := cs[c].(unread := cs[c].unread[..k] + cs[c].unread[k + 1..])], Some(cs[c].unread[k]))
  }

  function Apply(s: Modem, e: Event): Modem {
    match e
    case Arrive(to, m) => seq(|s|, d requires 0 <= d < |s| => Deliver(s[d], to, m))
    case Pop(dev, id, transaction) => if dev < |s| then s[dev := PopAt(s[dev], id, transaction).0] else s
    case Create(dev, id) =>
      if dev < |s| && Find(s[dev], id) == |s[dev]| then s[dev := s[dev] + [Client(id, [])]] else s
    case Release(dev, id) => if dev < |s| then s[dev := Drop(s[dev], id)] else s
  }

  // Every client with the id is deleted.
  function Drop(cs: Clients, id: u16): Clients {
    if cs == [] then [] else (if cs[0].id == id then [] else [cs[0]]) + Drop(cs[1..], id)
  }

  // What a pop returns.
  function Popped(s: Modem, e: Event): Option<Message> {
    if e.Pop? && e.dev < |s| then PopAt(s[e.dev], e.id, e.transaction).1 else None
  }

  ghost predicate Valid(s: Modem) {
    forall d :: 0 <= d < |s| ==> Distinct(s[d])
  }

  predicate Has(s: Modem, dev: nat, id: u16) {
    dev < |s| && Find(s[dev], id) < |s[dev]|
  }

  function Unread(s: Modem, dev: nat, id: u16): seq<Message>
    requires Has(s, dev, id)
  {
    s[dev][Find(s[dev], id)].unread
  }

  lemma {:induction false} DropMembers(cs: Clients, id: u16)
    ensures forall c :: c in Drop(cs, id) <==> c in cs && c.id != id
  {
    if cs != [] {
      DropMembers(cs[1..], id);
      assert forall c :: c in cs <==> c == cs[0] || c in cs[1..];
    }
  }

  lemma {:induction false} DropDistinct(cs: Clients, id: u16)
    requires Distinct(cs)
    ensures Distinct(Drop(cs, id))
  {
    if cs != [] {
      DropDistinct(cs[1..], id);
      DropMembers(cs[1..], id);
      var r := Drop(cs[1..], id);
      forall i | 0 <= i < |r|
        ensures r[i].id != cs[0].id
      {
        assert r[i] in r && r[i] in cs[1..];
      }
    }
  }

  /** Ids stay distinct on every device. */
  lemma StepKeepsValid(s: Modem, e: Event)
    requires Valid(s)
    ensures Valid(Apply(s, e)) && |Apply(s, e)| == |s|
  {
    match e
    case Arrive(to, m) =>
      forall d | 0 <= d < |s|
        ensures Distinct(Deliver(s[d], to, m))
      {
        DeliverReachesAddressed(s[d], to, m);
      }
    case Release(dev, id) =>
      if dev < |s| {
        DropDistinct(s[dev], id);
      }
    case _ =>
  }

  // ------------------------------------------------------------------------
  // What each client has to see, told without queues

  /** A client's history: every message that was ever for it, and the places of those
      it has taken, in the order of taking. */
  datatype History = History(all: seq<Message>, taken: seq<nat>)

  predicate Untaken(h: History, i: nat) {
    i < |h.all| && i !in h.taken
  }

  // The next message of a transaction that has not been taken.
  function Next(h: History, transaction: u16, from: nat): (i: nat)
    requires from <= |h.all|
    ensures from <= i <= |h.all|
    ensures i < |h.all| ==> Untaken(h, i) && Matches(h.all[i], transaction)
    ensures forall j :: from <= j < i && Untaken(h, j) ==> !Matches(h.all[j], transaction)
    decreases |h.all| - from
  {
    if from == |h.all| || (Untaken(h, from) && Matches(h.all[from], transaction)) then from
    else Next(h, transaction, from + 1)
  }

  function Record(h: History, dev: nat, id: u16, e: Event): History {
    match e
    case Arrive(to, m) => if Addressed(id, to) then h.(all := h.all + [m]) else h
    case Pop(d, i, transaction) =>
      if d == dev && i == id && Next(h, transaction, 0) < |h.all|
      then h.(taken := h.taken + [Next(h, transaction, 0)]) else h
    case Create(_, _) => h
    case Release(_, _) => h
  }

  // The messages at places below n that have not been taken.
  function Left(h: History, n: nat): seq<Message>
    requires n <= |h.all|
  {
    if n == 0 then []
    else Left(h, n - 1) + if Untaken(h, n - 1) then [h.all[n - 1]] else []
  }

  function Remaining(h: History): seq<Message> { Left(h, |h.all|) }

  ghost predicate TakenOnce(h: History) {
    && (forall j :: 0 <= j < |h.taken| ==> h.taken[j] < |h.all|)
    && (forall j, k :: 0 <= j < k < |h.taken| ==> h.taken[j] != h.taken[k])
  }

  lemma {:induction false} LeftIgnoresLater(h: History, m: Message, n: nat)
    requires n <= |h.all|
    ensures Left(h.(all := h.all + [m]), n) == Left(h, n)
  {
    if n > 0 {
      LeftIgnoresLater(h, m, n - 1);
    }
  }

  // Where the oldest match of what remains stands in the history.
  ghost predicate OldestAt(h: History, transaction: u16, n: nat)
    requires n <= |h.all|
  {
    var k, i, left := Oldest(Left(h, n), transaction), Next(h, transaction, 0), Left(h, n);
    if i < n then
      && k == |Left(h, i)| < |left|
      && left[k] == h.all[i]
      && Left(h.(taken := h.taken + [i]), n) == left[..k] + left[k + 1..]
    else k == |left|
  }

  lemma {:induction false} OldestIsNext(h: History, transaction: u16, n: nat)
    requires n <= |h.all|
    ensures OldestAt(h, transaction, n)
  {
    if n > 0 {
      OldestIsNext(h, transaction, n - 1);
      var i := Next(h, transaction, 0);
      if i < n - 1 {
        OldestBefore(h, transaction, n);
      } else {
        OldestHere(h, transaction, n);
      }
    }
  }

  lemma OldestBefore(h: History, transaction: u16, n: nat)
    requires 0 < n <= |h.all| && OldestAt(h, transaction, n - 1) && Next(h, transaction, 0) < n - 1
    ensures OldestAt(h, transaction, n)
  {
    var i := Next(h, transaction, 0);
    var before, more := Left(h, n - 1), if Untaken(h, n - 1) then [h.all[n - 1]] else [];
    OldestOfMore(before, more, transaction);
    OneOutOfMore(before, more, |Left(h, i)|);
    assert Untaken(h.(taken := h.taken + [i]), n - 1) <==> Untaken(h, n - 1);
  }

  lemma OldestHere(h: History, transaction: u16, n: nat)
    requires 0 < n <= |h.all| && OldestAt(h, transaction, n - 1) && Next(h, transaction, 0) >= n - 1
    ensures OldestAt(h, transaction, n)
  {
    var i := Next(h, transaction, 0);
    var before, more := Left(h, n - 1), if Untaken(h, n - 1) then [h.all[n - 1]] else [];
    OldestOfMore(before, more, transaction);
    if i == n - 1 {
      LeftBelow(h, i, n - 1);
      assert more == [h.all[i]] && (before + more)[..|before|] == before;
    }
  }

  lemma OneOutOfMore(a: seq<Message>, b: seq<Message>, k: nat)
    requires k < |a|
    ensures (a + b)[..k] + (a + b)[k + 1..] == a[..k] + a[k + 1..] + b
  {
  }

  lemma OldestOfMore(a: seq<Message>, b: seq<Message>, transaction: u16)
    ensures Oldest(a, transaction) < |a| ==> Oldest(a + b, transaction) == Oldest(a, transaction)
    ensures Oldest(a, transaction) == |a| && |b| == 1 ==>
      Oldest(a + b, transaction) == if Matches(b[0], transaction) then |a| else |a + b|
    ensures b == [] ==> Oldest(a + b, transaction) == Oldest(a, transaction)
  {
    var k := Oldest(a + b, transaction);
    assert b == [] ==> a + b == a;
    assert forall j :: 0 <= j < |a| ==> (a + b)[j] == a[j];
    assert |b| == 1 ==> (a + b)[|a|] == b[0];
  }

  lemma {:induction false} LeftBelow(h: History, i: nat, n: nat)
    requires n <= i < |h.all|
    ensures Left(h.(taken := h.taken + [i]), n) == Left(h, n)
  {
    if n > 0 {
      LeftBelow(h, i, n - 1);
      assert Untaken(h.(taken := h.taken + [i]), n - 1) <==> Untaken(h, n - 1);
    }
  }

  /** One step: whatever happens on the modem, a client's unread messages stay what remains
      of its own history; and a pop by it returns the oldest message of the
      transaction that it has not taken. */
  lemma StepFollowsHistory(s: Modem, e: Event, dev: nat, id: u16, h: History)
    requires Valid(s) && Has(s, dev, id) && e != Release(dev, id)
    requires Unread(s, dev, id) == Remaining(h) && TakenOnce(h)
    ensures var s', h' := Apply(s, e), Record(h, dev, id, e);
      && Has(s', dev, id)
      && Unread(s', dev, id) == Remaining(h') && TakenOnce(h')
      && (e.Pop? && e.dev == dev && e.id == id ==>
            var i := Next(h, e.transaction, 0);
            Popped(s, e) == if i < |h.all| then Some(h.all[i]) else None)
  {
    match e
    case Arrive(to, m) => ArriveRecorded(s, to, m, dev, id, h);
    case Pop(d, i, transaction) => PopRecorded(s, d, i, transaction, dev, id, h);
    case Create(d, i) => FoundAt(Apply(s, e)[dev], id, Find(s[dev], id));
    case Release(d, i) =>
      if d == dev {
        DropKeeps(s[dev], i, Find(s[dev], id));
      }
  }

  lemma ArriveRecorded(s: Modem, to: u16, m: Message, dev: nat, id: u16, h: History)
    requires Valid(s) && Has(s, dev, id) && Unread(s, dev, id) == Remaining(h) && TakenOnce(h)
    ensures var s', h' := Apply(s, Arrive(to, m)), Record(h, dev, id, Arrive(to, m));
      Has(s', dev, id) && Unread(s', dev, id) == Remaining(h') && TakenOnce(h')
  {
    var c := Find(s[dev], id);
    DeliverReachesAddressed(s[dev], to, m);
    FoundAt(Deliver(s[dev], to, m), id, c);
    LeftIgnoresLater(h, m, |h.all|);
    assert |h.all| !in h.taken;
  }

  lemma PopRecorded(s: Modem, d: nat, i: u16, transaction: u16, dev: nat, id: u16, h: History)
    requires Valid(s) && Has(s, dev, id) && Unread(s, dev, id) == Remaining(h) && TakenOnce(h)
    ensures var e := Pop(d, i, transaction);
      var s', h' := Apply(s, e), Record(h, dev, id, e);
      && Has(s', dev, id) && Unread(s', dev, id) == Remaining(h') && TakenOnce(h')
      && (d == dev && i == id ==>
            var i := Next(h, transaction, 0);
            Popped(s, e) == if i < |h.all| then Some(h.all[i]) else None)
  {
    if d == dev && i == id {
      OldestIsNext(h, transaction, |h.all|);
      PopOwn(s[dev], id, transaction);
    } else if d == dev {
      PopOther(s[dev], i, transaction, id);
    }
  }

  // A pop by the client itself.
  lemma PopOwn(cs: Clients, id: u16, transaction: u16)
    requires Find(cs, id) < |cs|
    ensures var (cs', m) := PopAt(cs, id, transaction);
      var c := Find(cs, id);
      var unread := cs[c].unread;
      var k := Oldest(unread, transaction);
      && Find(cs', id) == c < |cs'|
      && if k == |unread| then cs' == cs && m == None
         else cs'[c].unread == unread[..k] + unread[k + 1..] && m == Some(unread[k])
  {
    FoundAt(PopAt(cs, id, transaction).0, id, Find(cs, id));
  }

  /** A pop returns the first unread message that carries the transaction id, or for 0 the
      first of all, and leaves the others in order; without one it changes nothing. */
  lemma PopTakesFirst(cs: Clients, id: u16, transaction: u16)
    requires Find(cs, id) < |cs|
    ensures var (cs', m) := PopAt(cs, id, transaction);
      var c := Find(cs, id);
      var unread := cs[c].unread;
      match m
      case None =>
        cs' == cs && forall i :: 0 <= i < |unread| ==> transaction != 0 && unread[i].transaction != transaction
      case Some(message) =>
        exists k ::
          && 0 <= k < |unread| && unread[k] == message && (transaction == 0 || message.transaction == transaction)
          && (forall i :: 0 <= i < k ==> transaction != 0 && unread[i].transaction != transaction)
          && cs' == cs[c := Client(id, unread[..k] + unread[k + 1..])]
  {
    var k := Oldest(cs[Find(cs, id)].unread, transaction);
  }

  // A pop by another client of the same device.
  lemma PopOther(cs: Clients, i: u16, transaction: u16, id: u16)
    requires Find(cs, id) < |cs| && i != id
    ensures var cs' := PopAt(cs, i, transaction).0;
      Find(cs', id) == Find(cs, id) < |cs'| && cs'[Find(cs, id)] == cs[Find(cs, id)]
  {
    FoundAt(PopAt(cs, i, transaction).0, id, Find(cs, id));
  }

  lemma FoundAt(cs: Clients, id: u16, c: nat)
    requires c < |cs| && cs[c].id == id && forall i :: 0 <= i < c ==> cs[i].id != id
    ensures Find(cs, id) == c
  {
  }

  lemma {:induction false} DropKeeps(cs: Clients, id: u16, c: nat)
    requires Distinct(cs) && c < |cs| && cs[c].id != id
    ensures var r := Drop(cs, id);
      Find(r, cs[c].id) < |r| && r[Find(r, cs[c].id)] == cs[c]
  {
    DropDistinct(cs, id);
    DropMembers(cs, id);
    var r := Drop(cs, id);
    assert cs[c] in r;
    var k :| 0 <= k < |r| && r[k] == cs[c];
    FoundAt(r, cs[c].id, k);
  }

  // ------------------------------------------------------------------------
  // Runs

  function Run(s: Modem, events: seq<Event>): Modem
    decreases |events|
  {
    if events == [] then s else Run(Apply(s, events[0]), events[1..])
  }

  function RecordAll(h: History, dev: nat, id: u16, events: seq<Event>): History
    decreases |events|
  {
    if events == [] then h else RecordAll(Record(h, dev, id, events[0]), dev, id, events[1..])
  }

  /** In every run in which a client is not released, it holds exactly what was addressed to
      it or broadcast to its service and not yet taken, in order of arrival;
      nothing is taken twice, and what other clients do does not matter. */
  lemma {:induction false} RunFollowsHistory(s: Modem, events: seq<Event>, dev: nat, id: u16, h: History)
    requires Valid(s) && Has(s, dev, id) && Release(dev, id) !in events
    requires Unread(s, dev, id) == Remaining(h) && TakenOnce(h)
    ensures var s', h' := Run(s, events), RecordAll(h, dev, id, events);
      && Valid(s') && Has(s', dev, id)
      && Unread(s', dev, id) == Remaining(h') && TakenOnce(h')
    decreases |events|
  {
    if events != [] {
      StepKeepsValid(s, events[0]);
      StepFollowsHistory(s, events[0], dev, id, h);
      RunFollowsHistory(Apply(s, events[0]), events[1..], dev, id, Record(h, dev, id, events[0]));
    }
  }

  /** A client that has just been created starts from an empty history. */
  lemma CreateStartsHistory(s: Modem, dev: nat, id: u16)
    requires Valid(s) && dev < |s| && !Has(s, dev, id)
    ensures var s' := Apply(s, Create(dev, id));
      Has(s', dev, id) && Unread(s', dev, id) == Remaining(History([], [])) && TakenOnce(History([], []))
  {
    FoundAt(s[dev] + [Client(id, [])], id, |s[dev]|);
  }

  /** A released client is gone, and so is what it had not read: created again it starts from
      nothing. */
  lemma ReleaseForgets(s: Modem, dev: nat, id: u16)
    requires Valid(s) && dev < |s|
    ensures var s' := Apply(s, Release(dev, id));
      && |s'| == |s| && !Has(s', dev, id)
      && Has(Apply(s', Create(dev, id)), dev, id) && Unread(Apply(s', Create(dev, id)), dev, id) == []
  {
    var s' := Apply(s, Release(dev, id));
    StepKeepsValid(s, Release(dev, id));
    DropMembers(s[dev], id);
    NotFound(s'[dev], id);
    CreateStartsHistory(s', dev, id);
  }

  lemma {:induction false} NotFound(cs: Clients, id: u16)
    requires forall c :: c in cs ==> c.id != id
    ensures Find(cs, id) == |cs|
  {
    if cs != [] {
      assert cs[0] in cs;
      NotFound(cs[1..], id);
    }
  }

  // ------------------------------------------------------------------------
  // In place

  /** The message in a received buffer and whom it is for, if ParseQMUX accepts it. A
      transaction id is one byte for the control service, whose client id is 0. */
  function Received(buffer: seq<byte>): Option<(u16, Message)> {
    match Qmi.ParseQmux(buffer)
    case Failed(_) => None
    case Client(to) =>
      Some((to, Message(if to == 0 then buffer[7] else Qmi.U16(buffer[7], buffer[8]), buffer)))
  }

  /** The buffer is a response that ParseQMUX accepts. */
  predicate IsResponse(buffer: seq<byte>) {
    12 <= |buffer| && buffer[0] == 1 && buffer[1] as int + 256 * buffer[2] as int == |buffer| - 1 && buffer[3] == 0x80
  }

  /** Client byte 0xff: every client of the service; otherwise the one client. */
  predicate IsFor(buffer: seq<byte>, id: u16)
    requires IsResponse(buffer)
  {
    if buffer[5] == 0xff then id % 256 == buffer[4] else id == buffer[4] as int + 256 * buffer[5] as int
  }

  function AddressOf(buffer: seq<byte>): u16
    requires IsResponse(buffer)
  {
    buffer[4] as int + 256 * buffer[5] as int
  }

  // One byte behind the SDU flags for the control service, two for the others.
  function TransactionOf(buffer: seq<byte>): u16
    requires IsResponse(buffer)
  {
    if buffer[4] == 0 && buffer[5] == 0 then buffer[7] else buffer[7] as int + 256 * buffer[8] as int
  }

  /** One list before and after a buffer is received: exactly the clients it is for have it,
      behind what they had. */
  ghost predicate Served(before: Clients, after: Clients, buffer: seq<byte>) {
    && |after| == |before|
    && forall k :: 0 <= k < |before| ==>
         after[k] ==
           if IsResponse(buffer) && IsFor(buffer, before[k].id)
           then Client(before[k].id, before[k].unread + [Message(TransactionOf(buffer), buffer)])
           else before[k]
  }

  /** Of a broadcast id only the low byte is compared, of any other both are. */
  lemma AddressedExactly(id: u16, lo: byte, hi: byte)
    ensures Addressed(id, lo as int + 256 * hi as int) <==>
      if hi == 0xff then id % 256 == lo else id == lo as int + 256 * hi as int
  {
  }

  lemma ReceivedExactly(buffer: seq<byte>)
    ensures Received(buffer) ==
      if IsResponse(buffer) then Some((AddressOf(buffer), Message(TransactionOf(buffer), buffer))) else None
  {
  }

  lemma ArriveServes(s: Modem, buffer: seq<byte>)
    requires Valid(s)
    ensures Received(buffer).None? ==> forall d :: 0 <= d < |s| ==> Served(s[d], s[d], buffer)
    ensures Received(buffer).Some? ==>
      var r := Received(buffer).value;
      |Apply(s, Arrive(r.0, r.1))| == |s| &&
      forall d :: 0 <= d < |s| ==> Served(s[d], Apply(s, Arrive(r.0, r.1))[d], buffer)
  {
    ReceivedExactly(buffer);
    if IsResponse(buffer) {
      forall d | 0 <= d < |s|
        ensures Served(s[d], Deliver(s[d], AddressOf(buffer), Message(TransactionOf(buffer), buffer)), buffer)
      {
        ListServed(s[d], buffer);
      }
    }
  }

  lemma ListServed(cs: Clients, buffer: seq<byte>)
    requires Distinct(cs) && IsResponse(buffer)
    ensures Served(cs, Deliver(cs, AddressOf(buffer), Message(TransactionOf(buffer), buffer)), buffer)
  {
    DeliverReachesAddressed(cs, AddressOf(buffer), Message(TransactionOf(buffer), buffer));
    forall k | 0 <= k < |cs|
      ensures Addressed(cs[k].id, AddressOf(buffer)) <==> IsFor(buffer, cs[k].id)
    {
      AddressedExactly(cs[k].id, buffer[4], buffer[5]);
    }
  }

  /** A reply whose SDU carries the transaction id of a request is what the client's pop for
      that transaction returns, unless an older message of it is still unread. */
  lemma ReplyIsPopped(cs: Clients, id: u16, buffer: seq<byte>, transaction: u16)
    requires Distinct(cs) && Find(cs, id) < |cs| && IsResponse(buffer) && IsFor(buffer, id) && transaction != 0
    requires if buffer[4] == 0 && buffer[5] == 0
      then transaction < 256 && buffer[7..8] == R.ControlSdu(transaction)[1..]
      else buffer[7..9] == R.ServiceSdu(transaction)[1..]
    requires var unread := cs[Find(cs, id)].unread; forall i :: 0 <= i < |unread| ==> unread[i].transaction != transaction
    ensures var cs' := Deliver(cs, AddressOf(buffer), Message(TransactionOf(buffer), buffer));
      PopAt(cs', id, transaction).1 == Some(Message(transaction, buffer))
  {
    CarriesTransaction(buffer, transaction);
    ListServed(cs, buffer);
    LastIsPopped(cs, Deliver(cs, AddressOf(buffer), Message(transaction, buffer)), id, Message(transaction, buffer));
  }

  lemma CarriesTransaction(buffer: seq<byte>, transaction: u16)
    requires IsResponse(buffer)
    requires if buffer[4] == 0 && buffer[5] == 0
      then transaction < 256 && buffer[7..8] == R.ControlSdu(transaction)[1..]
      else buffer[7..9] == R.ServiceSdu(transaction)[1..]
    ensures TransactionOf(buffer) == transaction
  {
    if buffer[4] == 0 && buffer[5] == 0 {
      assert buffer[7] == buffer[7..8][0];
    } else {
      assert buffer[7] == buffer[7..9][0] && buffer[8] == buffer[7..9][1];
    }
  }

  // With nothing of the transaction before it, the last message is the one popped.
  lemma LastIsPopped(cs: Clients, cs': Clients, id: u16, m: Message)
    requires |cs'| == |cs| && (forall i :: 0 <= i < |cs| ==> cs'[i].id == cs[i].id) && Find(cs, id) < |cs|
    requires cs'[Find(cs, id)].unread == cs[Find(cs, id)].unread + [m]
    requires m.transaction != 0
    requires var unread := cs[Find(cs, id)].unread; forall i :: 0 <= i < |unread| ==> unread[i].transaction != m.transaction
    ensures PopAt(cs', id, m.transaction).1 == Some(m)
  {
    var unread := cs[Find(cs, id)].unread;
    FoundAt(cs', id, Find(cs, id));
    assert Oldest(unread, m.transaction) == |unread|;
    OldestOfMore(unread, [m], m.transaction);
  }

  class Device {
    var lists: Modem  // mClientMemList of the main device and of each multiplexed one

    method FindClientMem(dev: nat, id: u16) returns (k: nat)
      requires dev < |lists|
      ensures k == Find(lists[dev], id)
    {
      k := 0;
      while k < |lists[dev]|
        invariant k <= |lists[dev]| && forall i :: 0 <= i < k ==> lists[dev][i].id != id
      {
        if lists[dev][k].id == id {
          return;
        }
        k := k + 1;
      }
    }

    method AddToReadMemList(dev: nat, id: u16, m: Message) returns (added: bool)
      requires dev < |lists|
      modifies this
      ensures var cs, k := old(lists[dev]), Find(old(lists[dev]), id);
        && added == (k < |cs|)
        && lists == if added then old(lists)[dev := cs[k := cs[k].(unread := cs[k].unread + [m])]] else old(lists)
    {
      var k := FindClientMem(dev, id);
      if k == |lists[dev]| {
        return false;
      }
      var c := lists[dev][k];
      lists := lists[dev := lists[dev][k := c.(unread := c.unread + [m])]];
      added := true;
    }

    method PopFromReadMemList(dev: nat, id: u16, transaction: u16) returns (m: Option<Message>)
      requires dev < |lists|
      modifies this
      ensures lists == Apply(old(lists), Pop(dev, id, transaction))
      ensures m == Popped(old(lists), Pop(dev, id, transaction))
    {
      var c := FindClientMem(dev, id);
      if c == |lists[dev]| {
        return None;
      }
      var unread := lists[dev][c].unread;
      var k := 0;
      while k < |unread| && !Matches(unread[k], transaction)
        invariant k <= |unread| && forall i :: 0 <= i < k ==> !Matches(unread[i], transaction)
      {
        k := k + 1;
      }
      if k == |unread| {
        return None;
      }
      m := Some(unread[k]);
      lists := lists[dev := lists[dev][c := lists[dev][c].(unread := unread[..k] + unread[k + 1..])]];
    }

    // The end of GetClientID, once the id is known.
    method CreateClient(dev: nat, id: u16) returns (ok: bool)
      requires dev < |lists|
      modifies this
      ensures ok == !Has(old(lists), dev, id)
      ensures lists == Apply(old(lists), Create(dev, id))
    {
      var k := FindClientMem(dev, id);
      if k < |lists[dev]| {
        return false;
      }
      lists := lists[dev := lists[dev] + [Client(id, [])]];
      ok := true;
    }

    /** ReadCallback: the lists of the main device and of the multiplexed ones in turn. */
    method ReadCallback(buffer: seq<byte>)
      requires Valid(lists)
      modifies this
      ensures Valid(lists)
      ensures lists == match Received(buffer)
        case None => old(lists)
        case Some(r) => Apply(old(lists), Arrive(r.0, r.1))
      ensures |lists| == |old(lists)| && forall d :: 0 <= d < |lists| ==> Served(old(lists[d]), lists[d], buffer)
    {
      ArriveServes(lists, buffer);
      var parsed := Qmi.ParseQmux(buffer);
      if parsed.Failed? {
        return;
      }
      var to := parsed.id;
      var transaction := if to == 0 then buffer[7] else Qmi.U16(buffer[7], buffer[8]);
      var m := Message(transaction, buffer);
      ghost var was := lists;
      StepKeepsValid(lists, Arrive(to, m));
      ghost var now := Apply(was, Arrive(to, m));
      var d := 0;
      while d < |lists|
        invariant d <= |lists| && DeliveredTo(lists, was, now, d)
      {
        ScanClients(d, to, m);
        d := d + 1;
      }
      assert lists == now;
    }

    method ScanClients(dev: nat, to: u16, m: Message)
      requires dev < |lists| && Distinct(lists[dev])
      modifies this
      ensures lists == old(lists)[dev := Deliver(old(lists[dev]), to, m)]
    {
      ghost var was, cs := lists, lists[dev];
      ghost var all := Deliver(cs, to, m);
      DeliverReachesAddressed(cs, to, m);
      var j := 0;
      while j < |lists[dev]|
        invariant j <= |cs| == |all| && |lists| == |was|
        invariant lists == was[dev := lists[dev]]
        invariant Scanned(lists[dev], cs, all, j)
      {
        if Addressed(lists[dev][j].id, to) {
          ScanFinds(lists[dev], cs, all, j);
          var _ := AddToReadMemList(dev, lists[dev][j].id, m);
          if to / 256 != 0xff {
            assert lists[dev] == all;
            return;
          }
        }
        j := j + 1;
      }
      assert lists[dev] == all;
    }
  }

  // The first d lists have been scanned.
  ghost predicate DeliveredTo(lists: Modem, was: Modem, now: Modem, d: nat) {
    && |lists| == |was| == |now|
    && forall i :: 0 <= i < |lists| ==> lists[i] == if i < d then now[i] else was[i]
  }

  // The first j clients have been served.
  ghost predicate Scanned(now: Clients, cs: Clients, all: Clients, j: nat) {
    && |now| == |cs| == |all|
    && forall i :: 0 <= i < |now| ==> now[i] == if i < j then all[i] else cs[i]
  }

  lemma ScanFinds(now: Clients, cs: Clients, all: Clients, j: nat)
    requires Scanned(now, cs, all, j) && j < |now| && Distinct(cs)
    requires forall i :: 0 <= i < |cs| ==> all[i].id == cs[i].id
    ensures Find(now, now[j].id) == j
  {
    FoundAt(now, now[j].id, j);
  }
}
