// What becomes of the bytes in a session: nothing is lost, repeated or reordered
// as long as no reader starts to copy beside another.
module SessionBytes {
  import opened Bytes
  import opened Lists
  import opened ReadRing
  import opened Receive
  import opened Session

  // ------------------------------------------------------------------------
  // The invariant

  /** Received bytes are delivered, stored or parked, in that order, and parked blocks
      never wait for an empty ring. */
  ghost predicate BytesOk(s: Sys) {
    && QueueOk(s.dev)
    && (s.dev.size > 0 ==> !s.dev.ring.empty)
    && s.received == s.delivered + s.dev.ring.Contents() + Parked(s.dev)
  }

  /** A slot is used exactly while it is listed, and listed exactly while a reader has it. */
  ghost predicate Listed(d: Dev, readers: map<nat, Phase>) {
    && d.Shape()
    && (forall i, j :: 0 <= i < j < |d.notify| ==> d.notify[i] != d.notify[j])
    && (forall k :: 0 <= k < |d.pool| ==> (d.pool[k].used <==> k in d.notify))
    && (forall k :: k in readers <==> k in d.notify)
  }

  ghost predicate OneCopies(readers: map<nat, Phase>) {
    forall j, k :: j in readers && k in readers && readers[j].Copying? && readers[k].Copying? ==> j == k
  }

  /** A copying reader has a prefix of the stored bytes and is on its way to more. */
  ghost predicate CopyOk(r: Ring, p: Phase) {
    && 0 < p.want
    && (p.Copying? ==>
          && InProgress(r, p.copy)
          && Bounds(r, p.copy, p.want, p.owed)
          && p.copy.From() < p.copy.To()
          && p.copy.Before() <= |p.user| <= p.copy.Before() + (p.copy.To() - p.copy.From())
          && p.user <= r.Contents())
  }

  ghost predicate CopiesOk(r: Ring, readers: map<nat, Phase>) {
    && OneCopies(readers)
    && forall k :: k in readers ==> CopyOk(r, readers[k])
  }

  ghost predicate Steady(s: Sys) {
    && BytesOk(s)
    && Listed(s.dev, s.readers)
    && CopiesOk(s.dev.ring, s.readers)
  }

  lemma InitSteady(s: Sys)
    requires Init(s)
    ensures Steady(s)
  {
    assert Blocks(s.dev) == [];
  }

  // ------------------------------------------------------------------------
  // Parts that a step leaves alone

  // The bytes do not depend on the pool and the lists of readers.
  lemma BytesElsewhere(s: Sys, d: Dev, readers: map<nat, Phase>)
    requires BytesOk(s) && d == s.dev.(pool := d.pool, notify := d.notify) && d.Shape()
    ensures BytesOk(s.(dev := d, readers := readers))
  {
    assert Blocks(d) == Blocks(s.dev);
  }

  // Waking sets flags of used slots only.
  lemma NotifySpares(d: Dev, evt: Option<nat>)
    requires d.Shape()
    ensures var d' := Notify(d, evt);
      && d'.Shape() && d' == d.(pool := d'.pool)
      && |d'.pool| == |d.pool| && forall k :: 0 <= k < |d.pool| ==> d'.pool[k].used == d.pool[k].used
  {
  }

  // Leaving takes one slot off the list.
  lemma LeaveKeepsListed(d: Dev, readers: map<nat, Phase>, k: nat)
    requires Listed(d, readers) && k in readers && RemoveNotification(d, k).Shape()
    ensures var d' := Notify(RemoveNotification(d, k), None);
      Listed(d', readers - {k}) && d' == d.(pool := d'.pool, notify := d'.notify)
  {
    WithoutDistinct(d.notify, k);
    NotifySpares(RemoveNotification(d, k), None);
  }

  lemma LeaveSteady(s: Sys, d: Dev, k: nat)
    requires BytesOk(s.(dev := d)) && Listed(d, s.readers) && k in s.readers
    requires CopiesOk(d.ring, s.readers - {k})
    ensures Steady(Leave(s, d, k))
  {
    LeaveShape(d, k);
    LeaveKeepsListed(d, s.readers, k);
    BytesElsewhere(s.(dev := d), Notify(RemoveNotification(d, k), None), s.readers - {k});
  }

  // ------------------------------------------------------------------------
  // Completions

  lemma ArriveParks(s: Sys, urb: nat, block: seq<byte>)
    requires Steady(s) && Enabled(s, Arrive(urb, block))
    requires s.dev.size > 0 || !s.dev.ring.Add(block).1
    ensures Steady(Apply(s, Arrive(urb, block)))
  {
    var d := s.dev;
    AddRefinesFifo(d.ring, block);
    FreeSpaceIsCapacityMinusStored(d.ring);
    var d1 := d.(payload := d.payload[urb := block], flying := d.flying - {urb});
    assert QueueOk(d1);
    assert Blocks(d1) == Blocks(d);
    AddToQueueParks(d1, urb);
    Associate(s.delivered + d.ring.Contents(), Parked(d), block);
  }

  function Stored(d: Dev, urb: nat, block: seq<byte>): Dev
    requires d.Shape() && urb < |d.nodes|
  {
    d.(payload := d.payload[urb := block], flying := d.flying - {urb},
       ring := d.ring.Add(block).0, returning := d.returning + {urb})
  }

  lemma ArriveStores(s: Sys, urb: nat, block: seq<byte>)
    requires Steady(s) && Enabled(s, Arrive(urb, block))
    requires s.dev.size == 0 && s.dev.ring.Add(block).1
    ensures Steady(Apply(s, Arrive(urb, block)))
  {
    var d1 := Stored(s.dev, urb, block);
    StoredBytes(s, urb, block);
    StoredCopies(s.dev.ring, s.readers, block);
    NotifySpares(d1, None);
    BytesElsewhere(s.(dev := d1, received := s.received + block), Notify(d1, None), s.readers);
  }

  lemma StoredBytes(s: Sys, urb: nat, block: seq<byte>)
    requires BytesOk(s) && urb in s.dev.flying && 0 < |block|
    requires s.dev.size == 0 && s.dev.ring.Add(block).1
    ensures BytesOk(s.(dev := Stored(s.dev, urb, block), received := s.received + block))
  {
    AddRefinesFifo(s.dev.ring, block);
    var d1 := Stored(s.dev, urb, block);
    assert QueueOk(d1);
    assert Blocks(d1) == Blocks(s.dev) == [];
    var a, b := s.delivered, s.dev.ring.Contents();
    assert a + b + [] == a + b;
    assert a + (b + block) + [] == a + (b + block);
    Associate(a, b, block);
  }

  // A block that arrives disturbs no copy.
  lemma StoredCopies(r: Ring, readers: map<nat, Phase>, block: seq<byte>)
    requires r.Valid() && CopiesOk(r, readers) && 0 < |block|
    ensures CopiesOk(r.Add(block).0, readers)
  {
    AddRefinesFifo(r, block);
    forall k | k in readers
      ensures CopyOk(r.Add(block).0, readers[k])
    {
      var p := readers[k];
      if p.Copying? {
        AddSparesCopy(r, p.copy, block);
        AddKeepsBounds(r, p.copy, block, p.want, p.owed);
      }
    }
  }

  lemma UrbMoveSteady(s: Sys, e: Event)
    requires Steady(s) && Enabled(s, e) && (e.ArriveNothing? || e.ArriveError? || e.Resubmit?)
    ensures Steady(Apply(s, e))
  {
    var s' := Apply(s, e);
    assert QueueOk(s'.dev);
    assert Blocks(s'.dev) == Blocks(s.dev);
  }

  // ------------------------------------------------------------------------
  // Readers

  lemma RegisterSteady(s: Sys, want: nat)
    requires Steady(s) && 0 < want
    ensures Steady(Apply(s, Register(want)))
  {
    if AddToNotifyList(s.dev).Some? {
      var (d, k) := AddToNotifyList(s.dev).value;
      RegisterListed(s.dev, s.readers, d, k, want);
      NotifySpares(d, Some(k));
      BytesElsewhere(s, Notify(d, Some(k)), s.readers[k := Waiting(want)]);
    }
  }

  lemma RegisterListed(d: Dev, readers: map<nat, Phase>, d': Dev, k: nat, want: nat)
    requires Listed(d, readers) && AddToNotifyList(d) == Some((d', k))
    ensures Listed(d', readers[k := Waiting(want)]) && k !in d.notify
    ensures d' == d.(pool := d'.pool, notify := d'.notify)
  {
    assert k !in d.notify && d'.notify == d.notify + [k];
    assert forall j :: j in d'.notify <==> j in d.notify || j == k;
  }

  // One reader goes on to another phase.
  lemma OneReaderMoves(r: Ring, readers: map<nat, Phase>, k: nat, p: Phase)
    requires CopiesOk(r, readers) && k in readers && CopyOk(r, p) && (p.Copying? ==> readers[k].Copying?)
    ensures CopiesOk(r, readers[k := p])
  {
  }

  lemma WaitEndsSteady(s: Sys, e: Event)
    requires Steady(s) && Enabled(s, e) && (e.Wake? || e.TimeOut?)
    ensures Steady(Apply(s, e))
  {
    OneReaderMoves(s.dev.ring, s.readers, e.slot, Woken(s.readers[e.slot].want, e.Wake?));
  }

  // A reader that leaves was not copying, or was the only one.
  lemma OthersOk(r: Ring, readers: map<nat, Phase>, k: nat)
    requires CopiesOk(r, readers)
    ensures CopiesOk(r, readers - {k})
  {
  }

  lemma GiveUpSteady(s: Sys, k: nat)
    requires Steady(s) && k in s.readers && s.readers[k].Woken? && !s.readers[k].filled
    ensures Steady(Apply(s, Enter(k)))
  {
    assert Apply(s, Enter(k)) == Leave(s, s.dev, k);
    assert s.(dev := s.dev) == s;
    OthersOk(s.dev.ring, s.readers, k);
    LeaveSteady(s, s.dev, k);
  }

  /** A woken reader copies from the oldest byte on, or leaves when there is nothing. The
      invariant is kept exactly unless another reader is copying. */
  lemma EnterSteady(s: Sys, k: nat)
    requires Steady(s) && k in s.readers && s.readers[k].Woken? && s.readers[k].filled
    ensures Steady(Apply(s, Enter(k))) <==> !SecondCopy(s, Enter(k))
  {
    var want, d := s.readers[k].want, ClearFill(s.dev, k);
    assert CopyOk(s.dev.ring, s.readers[k]);
    BytesElsewhere(s, d, s.readers);
    BeginCorrect(d.ring, want);
    if Begin(d.ring, want).None? {
      OthersOk(d.ring, s.readers, k);
      LeaveSteady(s, d, k);
      NothingToCopy(s);
    } else {
      StartCopy(s, k, d);
    }
  }

  // While some reader copies, something is stored.
  lemma NothingToCopy(s: Sys)
    requires Steady(s) && s.dev.ring.Contents() == []
    ensures !SomeCopies(s)
  {
    FreeSpaceIsCapacityMinusStored(s.dev.ring);
    forall j | j in s.readers
      ensures !s.readers[j].Copying?
    {
      assert CopyOk(s.dev.ring, s.readers[j]);
    }
  }

  lemma StartCopy(s: Sys, k: nat, d: Dev)
    requires Steady(s) && k in s.readers && s.readers[k].Woken? && s.readers[k].filled
    requires d == ClearFill(s.dev, k) && Begin(d.ring, s.readers[k].want).Some?
    ensures Steady(Apply(s, Enter(k))) <==> !SecondCopy(s, Enter(k))
  {
    var s' := Apply(s, Enter(k));
    var p := s'.readers[k];
    BeginCorrect(d.ring, s.readers[k].want);
    assert CopyOk(d.ring, p);
    BytesElsewhere(s, d, s'.readers);
    if j :| j in s.readers && s.readers[j].Copying? {
      assert SecondCopy(s, Enter(k));
      assert j != k && s'.readers[j].Copying? && p.Copying?;
    } else {
      assert forall i :: i in s'.readers && s'.readers[i].Copying? ==> i == k;
    }
  }

  lemma CopySomeSteady(s: Sys, k: nat, n: nat)
    requires Steady(s) && Enabled(s, CopySome(k, n))
    ensures Steady(Apply(s, CopySome(k, n)))
  {
    var p := s.readers[k];
    assert CopyOk(s.dev.ring, p);
    CopyAdvances(s.dev.ring, p, n);
    OneReaderMoves(s.dev.ring, s.readers, k, Apply(s, CopySome(k, n)).readers[k]);
  }

  /** Every stretch of copying extends a prefix of the stored bytes. */
  lemma CopyAdvances(r: Ring, p: Phase, n: nat)
    requires p.Copying? && CopyOk(r, p)
    requires 0 <= Position(p) && Position(p) + n <= p.copy.To() <= |r.buf|
    ensures CopyOk(r, p.(user := p.user + r.buf[Position(p)..Position(p) + n]))
  {
    CopyReadsOldest(r, p.copy);
    SameSlices(r.buf, r.Contents(), p.copy.From(), p.copy.Before(), p.copy.To() - p.copy.From(), |p.user| - p.copy.Before(), n);
    PrefixExtends(p.user, r.Contents(), n);
  }

  lemma SameSlices(buf: seq<byte>, s: seq<byte>, from: nat, before: nat, len: nat, i: nat, n: nat)
    requires from + len <= |buf| && before + len <= |s| && i + n <= len
    requires buf[from..from + len] == s[before..before + len]
    ensures buf[from + i..from + i + n] == s[before + i..before + i + n]
  {
    SliceOfSlice(buf, from, from + len, i, n);
    SliceOfSlice(s, before, before + len, i, n);
  }

  lemma PrefixExtends(user: seq<byte>, s: seq<byte>, n: nat)
    requires user <= s && |user| + n <= |s|
    ensures user + s[|user|..|user| + n] <= s
  {
    assert user + s[|user|..|user| + n] == s[..|user| + n];
  }

  lemma SliceOfSlice(s: seq<byte>, lo: nat, hi: nat, i: nat, n: nat)
    requires lo <= hi <= |s| && lo + i + n <= hi
    ensures s[lo..hi][i..i + n] == s[lo + i..lo + i + n]
  {
    var a, b := s[lo..hi][i..i + n], s[lo + i..lo + i + n];
    assert forall j :: 0 <= j < n ==> a[j] == b[j];
  }

  // The first leg of a wrapped read is done; the second begins.
  lemma FinishLegSteady(s: Sys, k: nat, accepts: set<nat>)
    requires Steady(s) && Enabled(s, Finish(k, accepts)) && Retake(s.dev.ring, s.readers[k].copy).More?
    ensures Steady(Apply(s, Finish(k, accepts)))
  {
    var p := s.readers[k];
    assert CopyOk(s.dev.ring, p);
    RetakeCorrect(s.dev.ring, p.copy, p.want, p.owed);
    OneReaderMoves(s.dev.ring, s.readers, k, p.(copy := Retake(s.dev.ring, p.copy).copy));
  }

  /** A finished read returned the oldest stored bytes, in order: at least as many as
      were stored or asked for when it began, and never none. */
  lemma FinishReads(s: Sys, k: nat, accepts: set<nat>)
    requires Steady(s) && Enabled(s, Finish(k, accepts)) && Retake(s.dev.ring, s.readers[k].copy).Done?
    ensures var p := s.readers[k];
      var ring := Retake(s.dev.ring, p.copy).ring;
      && ring.Valid() && ring.buf == s.dev.ring.buf
      && p.user + ring.Contents() == s.dev.ring.Contents()
      && 0 < |p.user| && p.owed <= |p.user| <= p.want
      && (ring.empty <==> ring.Contents() == [])
  {
    assert CopyOk(s.dev.ring, s.readers[k]);
    CopiedAll(s.dev.ring, s.readers[k]);
  }

  lemma CopiedAll(r: Ring, p: Phase)
    requires r.Valid() && p.Copying? && CopyOk(r, p) && Position(p) == p.copy.To() && Retake(r, p.copy).Done?
    ensures var r' := Retake(r, p.copy).ring;
      && r'.Valid() && r'.buf == r.buf
      && p.user + r'.Contents() == r.Contents()
      && 0 < |p.user| && p.owed <= |p.user| <= p.want
      && (r'.empty <==> r'.Contents() == [])
  {
    RetakeCorrect(r, p.copy, p.want, p.owed);
    assert |p.user| == p.copy.Before() + (p.copy.To() - p.copy.From());
    assert r.Contents() == r.Contents()[..|p.user|] + r.Contents()[|p.user|..];
  }

  // The buffer once the copy is done, before the drain.
  function Taken(s: Sys, k: nat): Dev
    requires Shape(s) && k in s.readers && s.readers[k].Copying? && Followed(s.dev.ring, s.readers[k].copy)
    requires Retake(s.dev.ring, s.readers[k].copy).Done?
  {
    s.dev.(ring := Retake(s.dev.ring, s.readers[k].copy).ring)
  }

  // What the drain at the end of a read leaves.
  lemma FinishDrains(s: Sys, k: nat, accepts: set<nat>)
    requires Steady(s) && Enabled(s, Finish(k, accepts)) && Retake(s.dev.ring, s.readers[k].copy).Done?
    ensures QueueOk(Taken(s, k))
    ensures var d := Drain(Taken(s, k), accepts);
      && QueueOk(d)
      && d.ring.Contents() + Parked(d) == Taken(s, k).ring.Contents() + Parked(Taken(s, k))
      && SlotsKept(s.dev, d)
      && (d.size == 0 || d.ring.FreeSpace() < |d.payload[d.nodes[0].urb]|)
  {
    FinishReads(s, k, accepts);
    RingIsNotQueue(s.dev, Taken(s, k));
    assert HeadServed(Taken(s, k)) <==> HeadServed(s.dev);
    DrainMovesWhatFits(Taken(s, k), accepts);
  }

  lemma RingIsNotQueue(d: Dev, d': Dev)
    requires QueueOk(d) && d' == d.(ring := d'.ring) && d'.ring.Valid() && |d'.ring.buf| == |d.ring.buf|
    ensures QueueOk(d')
  {
  }

  lemma FinishReadSteady(s: Sys, k: nat, accepts: set<nat>)
    requires Steady(s) && Enabled(s, Finish(k, accepts)) && Retake(s.dev.ring, s.readers[k].copy).Done?
    ensures Steady(Apply(s, Finish(k, accepts)))
  {
    FinishReads(s, k, accepts);
    FinishDrains(s, k, accepts);
    var user, d := s.readers[k].user, Drain(Taken(s, k), accepts);
    FinishConserves(s, user, Taken(s, k), d);
    OnlyOneCopied(s.dev.ring, d.ring, s.readers, k);
    LeaveSteady(s.(delivered := s.delivered + user), d, k);
  }

  // With the only copying reader gone, nobody depends on the ring.
  lemma OnlyOneCopied(r: Ring, r': Ring, readers: map<nat, Phase>, k: nat)
    requires CopiesOk(r, readers) && k in readers && readers[k].Copying?
    ensures CopiesOk(r', readers - {k})
  {
    forall j | j in readers - {k}
      ensures CopyOk(r', (readers - {k})[j])
    {
      assert CopyOk(r, readers[j]);
    }
  }

  lemma FinishConserves(s: Sys, user: seq<byte>, d1: Dev, d: Dev)
    requires BytesOk(s) && QueueOk(d1) && QueueOk(d)
    requires d1 == s.dev.(ring := d1.ring) && user + d1.ring.Contents() == s.dev.ring.Contents()
    requires d.ring.Contents() + Parked(d) == d1.ring.Contents() + Parked(d1)
    requires d.size == 0 || d.ring.FreeSpace() < |d.payload[d.nodes[0].urb]|
    ensures BytesOk(s.(dev := d, delivered := s.delivered + user))
  {
    assert Blocks(d1) == Blocks(s.dev);
    FreeSpaceIsCapacityMinusStored(d.ring);
    var out := s.delivered;
    var c1, c := d1.ring.Contents(), d.ring.Contents();
    Associate(out, user, c1);
    Associate(out + user, c1, Parked(d1));
    Associate(out + user, c, Parked(d));
  }

  /** Every step keeps the invariant, except exactly one that starts a second copy. */
  lemma StepKeepsSteady(s: Sys, e: Event)
    requires Steady(s) && Enabled(s, e)
    ensures Steady(Apply(s, e)) <==> !SecondCopy(s, e)
  {
    match e
    case Arrive(urb, block) =>
      if s.dev.size > 0 || !s.dev.ring.Add(block).1 {
        ArriveParks(s, urb, block);
      } else {
        ArriveStores(s, urb, block);
      }
    case ArriveNothing(_) => UrbMoveSteady(s, e);
    case ArriveError(_) => UrbMoveSteady(s, e);
    case Resubmit(_, _) => UrbMoveSteady(s, e);
    case Register(want) => RegisterSteady(s, want);
    case Wake(_) => WaitEndsSteady(s, e);
    case TimeOut(_) => WaitEndsSteady(s, e);
    case Enter(k) =>
      if s.readers[k].filled {
        EnterSteady(s, k);
      } else {
        GiveUpSteady(s, k);
      }
    case CopySome(k, n) => CopySomeSteady(s, k, n);
    case Finish(k, accepts) =>
      if Retake(s.dev.ring, s.readers[k].copy).More? {
        FinishLegSteady(s, k, accepts);
      } else {
        FinishReadSteady(s, k, accepts);
      }
  }

  /** At this moment the reader has the oldest stored byte already, or it is the byte it copies next. */
  ghost predicate TakesOldest(r: Ring, p: Phase) {
    && p.Copying? && r.Valid() && r.Contents() != []
    && if p.user != [] then p.user[0] == r.Contents()[0]
       else Position(p) == p.copy.From() < |r.buf| && r.buf[p.copy.From()] == r.Contents()[0]
  }

  /** Right after such a step both readers have, or copy next, the same oldest byte. */
  lemma SecondCopyRepeats(s: Sys, k: nat, j: nat)
    requires Steady(s) && Enabled(s, Enter(k)) && SecondCopy(s, Enter(k))
    requires j in s.readers && s.readers[j].Copying?
    ensures var s' := Apply(s, Enter(k));
      j != k && k in s'.readers && j in s'.readers
      && TakesOldest(s'.dev.ring, s'.readers[k]) && TakesOldest(s'.dev.ring, s'.readers[j])
  {
    var r := s.dev.ring;
    assert CopyOk(r, s.readers[j]) && CopyOk(r, s.readers[k]);
    BeginCorrect(r, s.readers[k].want);
    FreeSpaceIsCapacityMinusStored(r);
    StartsOldest(r, s.readers[j].copy);
    StartsOldest(r, Begin(r, s.readers[k].want).value);
  }

  lemma StartsOldest(r: Ring, c: Copy)
    requires InProgress(r, c) && c.From() < c.To()
    ensures r.Contents() != []
    ensures c.Before() == 0 ==> c.From() < |r.buf| && r.buf[c.From()] == r.Contents()[0]
  {
    CopyReadsOldest(r, c);
    FreeSpaceIsCapacityMinusStored(r);
    if c.Before() == 0 {
      assert r.buf[c.From()..c.To()][0] == r.Contents()[0..c.To() - c.From()][0];
    }
  }
}
