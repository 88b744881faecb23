// The circular read buffer of the QDSS/DIAG driver
// (src/linux/qcom_usb/qcom_usb_main.c), as values: the index arithmetic of
// ReadBufferFreeSpace, AddToReadMemList and CopyFromReadMemList, and what it
// means for the bytes stored.
module ReadRing {
  import opened Bytes

  /** The buffer. An index may equal the buffer length, and start == end is
      either "full" or "empty", which the flag decides. */
  datatype Ring = Ring(buf: seq<byte>, start: nat, end: nat, empty: bool) {

    ghost predicate Valid() {
      && 0 < |buf|
      && start <= |buf|
      && end <= |buf|
      && (empty ==> start == end)
      && (!empty ==> end > 0)
    }

    // The bytes stored, oldest first.
    ghost function Contents(): seq<byte>
      requires Valid()
    {
      if empty then []
      else if start < end then buf[start..end]
      else buf[start..] + buf[..end]
    }

    // ReadBufferFreeSpace.
    function FreeSpace(): nat
      requires Valid()
    {
      if empty then |buf|
      else if start < end then |buf| - (end - start)
      else if start > end then start - end
      else 0
    }

    /** AddToReadMemList: the new buffer, and whether the block was taken. */
    function Add(block: seq<byte>): (Ring, bool)
      requires Valid()
    {
      if start <= end then
        if start == end && !empty then
          (this, false)
        else if |block| <= |buf| - (end - start) then
          var partial := if |block| <= |buf| - end then |block| else |buf| - end;
          var first := Put(buf, end, block[..partial]);
          if |block| != partial then
            (Ring(Put(first, 0, block[partial..]), start, |block| - partial, false), true)
          else
            (Ring(first, start, end + |block|, false), true)
        else
          (this, false)
      else if |block| <= start - end then
        (Ring(Put(buf, end, block), start, end + |block|, false), true)
      else
        (this, false)
    }
  }

  /** Free space and stored length always add up to the capacity. */
  lemma FreeSpaceIsCapacityMinusStored(r: Ring)
    requires r.Valid()
    ensures r.FreeSpace() + |r.Contents()| == |r.buf|
    ensures r.empty <==> r.Contents() == []
  {
  }

  /** The buffer refines a bounded FIFO: a block is taken exactly when it fits,
      goes behind everything stored, and is otherwise refused whole. */
  lemma AddRefinesFifo(r: Ring, block: seq<byte>)
    requires r.Valid() && 0 < |block|
    ensures r.Add(block).1 <==> |block| <= r.FreeSpace()
    ensures !r.Add(block).1 ==> r.Add(block).0 == r
    ensures r.Add(block).0.Valid()
    ensures r.Add(block).1 ==> r.Add(block).0.Contents() == r.Contents() + block
    ensures |r.Add(block).0.buf| == |r.buf| && r.Add(block).0.start == r.start
  {
    var r' := r.Add(block).0;
    if r.Add(block).1 {
      if r.start > r.end {
        AddBelowStart(r, block);
      } else if |block| <= |r.buf| - r.end {
        AddAtEnd(r, block);
      } else {
        AddAroundEdge(r, block);
      }
    }
  }

  lemma PutWrites(buf: seq<byte>, at: nat, block: seq<byte>)
    requires at + |block| <= |buf|
    ensures Put(buf, at, block)[at..at + |block|] == block
  {
  }

  lemma PutSpares(buf: seq<byte>, at: nat, block: seq<byte>, lo: nat, hi: nat)
    requires at + |block| <= |buf| && lo <= hi <= |buf|
    requires hi <= at || at + |block| <= lo
    ensures Put(buf, at, block)[lo..hi] == buf[lo..hi]
  {
  }

  lemma Extend(buf: seq<byte>, lo: nat, mid: nat, hi: nat)
    requires lo <= mid <= hi <= |buf|
    ensures buf[lo..hi] == buf[lo..mid] + buf[mid..hi]
  {
  }

  // Free space below the start index.
  lemma AddBelowStart(r: Ring, block: seq<byte>)
    requires r.Valid() && 0 < |block| && r.end < r.start && |block| <= r.start - r.end
    ensures r.Add(block).0.Valid() && r.Add(block).0.Contents() == r.Contents() + block
  {
    PutBelow(r.buf, r.start, r.end, block);
    assert r.Add(block).0 == Ring(Put(r.buf, r.end, block), r.start, r.end + |block|, false);
  }

  lemma PutBelow(buf: seq<byte>, start: nat, end: nat, block: seq<byte>)
    requires end + |block| <= start <= |buf|
    ensures var b := Put(buf, end, block);
      b[start..] + b[..end + |block|] == buf[start..] + buf[..end] + block
  {
    var b := Put(buf, end, block);
    PutWrites(buf, end, block);
    PutSpares(buf, end, block, start, |buf|);
    PutSpares(buf, end, block, 0, end);
    Extend(b, 0, end, end + |block|);
    Associate(buf[start..], buf[..end], block);
  }

  lemma AddAtEnd(r: Ring, block: seq<byte>)
    requires r.Valid() && 0 < |block| && r.start <= r.end && (r.start == r.end ==> r.empty)
    requires |block| <= |r.buf| - r.end
    ensures r.Add(block).0.Valid() && r.Add(block).0.Contents() == r.Contents() + block
  {
    var b := Put(r.buf, r.end, block);
    assert block[..|block|] == block;
    assert r.Add(block).0.buf == b;
    PutWrites(r.buf, r.end, block);
    PutSpares(r.buf, r.end, block, r.start, r.end);
    Extend(b, r.start, r.end, r.end + |block|);
  }

  lemma AddAroundEdge(r: Ring, block: seq<byte>)
    requires r.Valid() && r.start <= r.end && (r.start == r.end ==> r.empty)
    requires |r.buf| - r.end < |block| <= |r.buf| - (r.end - r.start)
    ensures r.Add(block).0.Valid() && r.Add(block).0.Contents() == r.Contents() + block
  {
    var first, second := block[..|r.buf| - r.end], block[|r.buf| - r.end..];
    assert r.Add(block).0 == Ring(Put(Put(r.buf, r.end, first), 0, second), r.start, |second|, false);
    PutAround(r.buf, r.start, r.end, first, second);
    assert block == first + second;
    Associate(r.buf[r.start..r.end], first, second);
  }

  lemma PutAround(buf: seq<byte>, start: nat, end: nat, first: seq<byte>, second: seq<byte>)
    requires start <= end && end + |first| == |buf| && |second| <= start
    ensures var b := Put(Put(buf, end, first), 0, second);
      b[start..] + b[..|second|] == buf[start..end] + first + second
  {
    var b1 := Put(buf, end, first);
    PutWrites(buf, end, first);
    PutSpares(buf, end, first, start, end);
    Extend(b1, start, end, |buf|);
    PutWrites(b1, 0, second);
    PutSpares(b1, 0, second, start, |buf|);
  }

  // ------------------------------------------------------------------------
  // CopyFromReadMemList, cut at the points where the lock is dropped

  /** A copy in progress. Each case is one branch of CopyFromReadMemList and
      holds the locals that branch still needs when it retakes the lock. */
  datatype Copy =
    | Part(from: nat, len: nat)                  // start < end, more stored than wanted
    | All(from: nat, endSeen: nat)               // start < end, everything stored
    | Flat(from: nat, len: nat)                  // wrapped, wanted bytes end before the edge
    | Leg1(from: nat, edge: nat, want: nat)      // wrapped, up to the edge first
    | Leg2(leg1: nat, len: nat)                  // then some bytes from the front
    | Leg2All(leg1: nat, endSeen: nat)           // then every byte at the front
  {
    // The byte range the unlocked copy reads.
    function From(): nat {
      match this
      case Part(from, _) => from
      case All(from, _) => from
      case Flat(from, _) => from
      case Leg1(from, _, _) => from
      case Leg2(_, _) => 0
      case Leg2All(_, _) => 0
    }

    function To(): nat {
      match this
      case Part(from, len) => from + len
      case All(_, endSeen) => endSeen
      case Flat(from, len) => from + len
      case Leg1(_, edge, _) => edge
      case Leg2(_, len) => len
      case Leg2All(_, endSeen) => endSeen
    }

    // Bytes the earlier leg of the same read has already copied.
    function Before(): nat {
      match this
      case Leg2(leg1, _) => leg1
      case Leg2All(leg1, _) => leg1
      case _ => 0
    }
  }

  // The second leg re-reads the end index, which may have moved.
  function SecondLeg(r: Ring, leg1: nat, want: nat): Copy
    requires leg1 < want
  {
    if r.end > want - leg1 then Leg2(leg1, want - leg1) else Leg2All(leg1, r.end)
  }

  /** Entry of CopyFromReadMemList: the first copy to make, or None when there is
      nothing to read. A first leg of no bytes is skipped without dropping the lock. */
  function Begin(r: Ring, want: nat): Option<Copy>
    requires r.Valid()
  {
    if r.start < r.end then
      if r.end - r.start > want then Some(Part(r.start, want)) else Some(All(r.start, r.end))
    else if !r.empty then
      if |r.buf| - r.start >= want then Some(Flat(r.start, want))
      else if |r.buf| - r.start == 0 then Some(SecondLeg(r, 0, want))
      else Some(Leg1(r.start, |r.buf|, want))
    else None
  }

  datatype Outcome = More(copy: Copy) | Done(ring: Ring)

  /** What CopyFromReadMemList does to the buffer once a copy is finished and the
      lock is held again. Only All and Leg2All ever touch the flag. */
  function Retake(r: Ring, c: Copy): Outcome
    requires 0 < |r.buf|
    requires c.Leg1? ==> c.from <= c.edge && c.edge - c.from < c.want
  {
    match c
    case Part(_, len) => Done(r.(start := r.start + len))
    case All(_, endSeen) => Done(r.(start := endSeen, empty := r.empty || endSeen == r.end))
    case Flat(_, len) => Done(r.(start := (r.start + len) % |r.buf|))
    case Leg1(from, edge, want) => More(SecondLeg(r, edge - from, want))
    case Leg2(_, len) => Done(r.(start := len))
    case Leg2All(_, endSeen) => Done(r.(start := endSeen, empty := r.empty || endSeen == r.end))
  }

  /** What holds of a copy in progress whenever the lock is free. */
  ghost predicate InProgress(r: Ring, c: Copy) {
    && r.Valid()
    && !r.empty
    && match c
       case Part(from, len) => from == r.start && r.start + len < if r.start < r.end then r.end else |r.buf|
       case All(from, endSeen) => from == r.start < endSeen <= if r.start < r.end then r.end else |r.buf|
       case Flat(from, len) => from == r.start && r.end <= r.start && r.start + len <= |r.buf|
       case Leg1(from, edge, want) => from == r.start < edge == |r.buf| && r.end <= r.start && edge - from < want
       case Leg2(leg1, len) => r.start + leg1 == |r.buf| && r.end <= r.start && 0 < len < r.end
       case Leg2All(leg1, endSeen) => r.start + leg1 == |r.buf| && r.end <= r.start && 0 < endSeen <= r.end
  }

  /** The range being copied is exactly the stretch of stored bytes that
      comes next, so copying it front to back yields the oldest bytes in order. */
  lemma CopyReadsOldest(r: Ring, c: Copy)
    requires InProgress(r, c)
    ensures c.From() <= c.To() <= |r.buf|
    ensures c.Before() + (c.To() - c.From()) <= |r.Contents()|
    ensures r.buf[c.From()..c.To()] == r.Contents()[c.Before()..c.Before() + (c.To() - c.From())]
  {
    if r.start < r.end {
      assert c.Before() == 0 && c.From() == r.start;
      TakeFlat(r.buf, r.start, r.end, c.To());
    } else if c.Leg2? || c.Leg2All? {
      assert c.Before() == |r.buf| - r.start && c.From() == 0;
      TakePastEdge(r.buf, r.start, r.end, c.To());
    } else {
      assert c.Before() == 0 && c.From() == r.start;
      TakeWrapped(r.buf, r.start, r.end, c.To());
    }
  }

  lemma TakeFlat(buf: seq<byte>, lo: nat, hi: nat, to: nat)
    requires lo <= to <= hi <= |buf|
    ensures buf[lo..hi][0..to - lo] == buf[lo..to]
  {
  }

  lemma TakeWrapped(buf: seq<byte>, start: nat, end: nat, to: nat)
    requires start <= to <= |buf| && end <= |buf|
    ensures (buf[start..] + buf[..end])[0..to - start] == buf[start..to]
  {
  }

  lemma TakePastEdge(buf: seq<byte>, start: nat, end: nat, to: nat)
    requires to <= end <= start <= |buf|
    ensures (buf[start..] + buf[..end])[|buf| - start..|buf| - start + to] == buf[0..to]
  {
  }

  /** A block that arrives while the lock is dropped is written outside the range
      being copied, and the copy may go on as if nothing had happened. */
  lemma AddSparesCopy(r: Ring, c: Copy, block: seq<byte>)
    requires InProgress(r, c) && 0 < |block|
    ensures InProgress(r.Add(block).0, c)
    ensures r.Add(block).0.buf[c.From()..c.To()] == r.buf[c.From()..c.To()]
  {
    AddRefinesFifo(r, block);
    AddLeavesRoom(r, c, block);
    CopyReadsOldest(r, c);
    CopyReadsOldest(r.Add(block).0, c);
    SliceOfPrefix(r.Contents(), block, c.Before(), c.Before() + (c.To() - c.From()));
  }

  lemma SliceOfPrefix(s: seq<byte>, t: seq<byte>, lo: nat, hi: nat)
    requires lo <= hi <= |s|
    ensures (s + t)[lo..hi] == s[lo..hi]
  {
  }

  lemma AddLeavesRoom(r: Ring, c: Copy, block: seq<byte>)
    requires InProgress(r, c) && 0 < |block| && r.Add(block).0.Valid()
    ensures InProgress(r.Add(block).0, c)
  {
  }

  /** Entry: nothing to read exactly when the buffer is empty; otherwise the first
      range is never empty (for a read of at least one byte). */
  lemma BeginCorrect(r: Ring, want: nat)
    requires r.Valid() && 0 < want
    ensures Begin(r, want).None? <==> r.Contents() == []
    ensures Begin(r, want).Some? ==> var c := Begin(r, want).value;
      InProgress(r, c) && c.Before() == 0 && c.From() < c.To() && Bounds(r, c, want, Min(want, |r.Contents()|))
  {
    FreeSpaceIsCapacityMinusStored(r);
  }

  function Min(a: nat, b: nat): nat { if a <= b then a else b }

  /** The read will return at most `want` bytes and at least `owed`, the smaller
      of what was asked for and what was stored when it started. */
  ghost predicate Bounds(r: Ring, c: Copy, want: nat, owed: nat) {
    match c
    case Leg1(from, edge, w) => w == want && from <= edge && owed <= want && owed <= edge - from + r.end
    case _ => c.From() <= c.To() && owed <= c.Before() + (c.To() - c.From()) <= want
  }

  lemma AddKeepsBounds(r: Ring, c: Copy, block: seq<byte>, want: nat, owed: nat)
    requires InProgress(r, c) && 0 < |block| && Bounds(r, c, want, owed)
    ensures Bounds(r.Add(block).0, c, want, owed)
  {
    AddSparesCopy(r, c, block);
  }

  /** Retaking the lock: a first leg goes on to a second over the bytes that follow;
      any other copy removes exactly the bytes copied, whatever has
      arrived meanwhile, and the flag ends up set exactly when nothing is left. */
  lemma RetakeCorrect(r: Ring, c: Copy, want: nat, owed: nat)
    requires InProgress(r, c) && Bounds(r, c, want, owed)
    ensures match Retake(r, c)
      case More(next) =>
        && c.Leg1?
        && InProgress(r, next) && Bounds(r, next, want, owed)
        && next.Before() == c.Before() + (c.To() - c.From()) && next.From() < next.To()
      case Done(r') =>
        var total := c.Before() + (c.To() - c.From());
        && r'.Valid()
        && r'.buf == r.buf
        && owed <= total <= want
        && total <= |r.Contents()|
        && r'.Contents() == r.Contents()[total..]
        && (r'.empty <==> r'.Contents() == [])
  {
    CopyReadsOldest(r, c);
    match Retake(r, c)
    case More(_) =>
    case Done(r') =>
      RetakeRemoves(r, c);
      FreeSpaceIsCapacityMinusStored(r');
  }

  lemma RetakeRemoves(r: Ring, c: Copy)
    requires InProgress(r, c) && !c.Leg1?
    ensures Retake(r, c).Done?
    ensures var r' := Retake(r, c).ring;
      var total := c.Before() + (c.To() - c.From());
      && r'.Valid()
      && total <= |r.Contents()|
      && r'.Contents() == r.Contents()[total..]
  {
    CopyReadsOldest(r, c);
    if c.Flat? {
      FlatWrap(r, c);
    }
    var n := c.To() - c.From();
    if r.start < r.end {
      DropFlat(r.buf, r.start, r.end, n);
    } else if c.Leg2? || c.Leg2All? {
      DropPastEdge(r.buf, r.start, r.end, n);
    } else {
      DropWrapped(r.buf, r.start, r.end, n);
    }
  }

  lemma DropFlat(buf: seq<byte>, lo: nat, hi: nat, n: nat)
    requires lo + n <= hi <= |buf|
    ensures buf[lo..hi][n..] == buf[lo + n..hi]
  {
  }

  lemma DropWrapped(buf: seq<byte>, start: nat, end: nat, n: nat)
    requires start + n <= |buf| && end <= |buf|
    ensures (buf[start..] + buf[..end])[n..] == buf[start + n..] + buf[..end]
  {
  }

  lemma DropPastEdge(buf: seq<byte>, start: nat, end: nat, n: nat)
    requires n <= end <= start <= |buf|
    ensures (buf[start..] + buf[..end])[|buf| - start + n..] == buf[n..end]
  {
  }

  lemma FlatWrap(r: Ring, c: Copy)
    requires InProgress(r, c) && c.Flat?
    ensures (r.start + c.len) % |r.buf| == if r.start + c.len == |r.buf| then 0 else r.start + c.len
  {
  }

  // ------------------------------------------------------------------------
  // A read during which nothing arrives

  function ReadAlone(r: Ring, c: Copy): (seq<byte>, Ring)
    requires InProgress(r, c)
    decreases if c.Leg1? then 1 else 0
  {
    CopyReadsOldest(r, c);
    var got := r.buf[c.From()..c.To()];
    match Retake(r, c)
    case Done(r') => (got, r')
    case More(next) =>
      RetakeCorrect(r, c, c.want, 0);
      var (rest, r') := ReadAlone(r, next);
      (got + rest, r')
  }

  /** Left alone, a read returns exactly the smaller of what was asked for and what
      was stored, from the front, and leaves the rest. */
  lemma ReadAloneReturnsMin(r: Ring, want: nat)
    requires r.Valid() && 0 < want && Begin(r, want).Some?
    ensures InProgress(r, Begin(r, want).value)
    ensures var n := Min(want, |r.Contents()|);
      var (got, r') := ReadAlone(r, Begin(r, want).value);
      got == r.Contents()[..n] && r'.Valid() && r'.Contents() == r.Contents()[n..]
  {
    var n := Min(want, |r.Contents()|);
    BeginCorrect(r, want);
    var c := Begin(r, want).value;
    RetakeCorrect(r, c, want, n);
    ReadAloneTakes(r, c, want, n);
  }

  lemma ReadAloneTakes(r: Ring, c: Copy, want: nat, owed: nat)
    requires InProgress(r, c) && Bounds(r, c, want, owed) && owed == Min(want, |r.Contents()|)
    ensures var (got, r') := ReadAlone(r, c);
      c.Before() <= owed && got == r.Contents()[c.Before()..owed] && r'.Valid() && r'.Contents() == r.Contents()[owed..]
    decreases if c.Leg1? then 1 else 0
  {
    CopyReadsOldest(r, c);
    RetakeCorrect(r, c, want, owed);
    match Retake(r, c)
    case Done(_) =>
      assert c.Before() + (c.To() - c.From()) == owed;
    case More(next) =>
      ReadAloneTakes(r, next, want, owed);
      Rejoin(r.Contents(), next.Before(), owed);
  }

  lemma Rejoin(s: seq<byte>, m: nat, n: nat)
    requires m <= n <= |s|
    ensures s[0..m] + s[m..n] == s[0..n]
  {
  }
}
