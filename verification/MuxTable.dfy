// The filter's reply to a configuration descriptor request, written in place, and
// the table that maps virtual interfaces back to physical ones
// (src/windows/filter/qcfilter.c).
module MuxTable {
  import opened Bytes
  import opened Descriptors

  const SLOTS: nat := 16   // NUM_MUX_INTERFACES_MUX

  // InterfaceMuxList[i]: the RmnetInterface fields.
  datatype Entry = Entry(physical: nat, mux: seq<nat>)

  type Table = t: seq<Entry> | |t| == SLOTS && forall i :: 0 <= i < |t| ==> |t[i].mux| == SLOTS
    witness seq(SLOTS, _ => Entry(0, seq(SLOTS, _ => 0)))

  // A device extension starts out zeroed.
  const ZEROED: Table := seq(SLOTS, _ => Entry(0, seq(SLOTS, _ => 0)))

  function RowFilled(e: Entry, start: nat, m: nat, i: nat): Entry
    requires |e.mux| == SLOTS
  {
    Entry((start + i) % 0x1_0000_0000, seq(SLOTS, j requires 0 <= j < SLOTS => if j < m then Number(m, i, j) else e.mux[j]))
  }

  /** The table after USBPNP_SelectAndAddInterfaces for n physical interfaces from
      `start` on, with m virtual ones each. */
  function Filled(t: Table, start: nat, n: nat, m: nat): (r: Table)
    requires n <= SLOTS && m <= SLOTS
  {
    seq(SLOTS, i requires 0 <= i < SLOTS => if i < n then RowFilled(t[i], start, m, i) else t[i])
  }

  // ------------------------------------------------------------------------
  // IOCTL_QCDEV_GET_MUX_INTERFACE

  function LookupFrom(t: Table, number: byte, i: nat): Option<byte>
    requires i <= SLOTS
    decreases SLOTS - i
  {
    if i == SLOTS then None
    else if t[i].physical == number then Some(number)
    else if number in t[i].mux then Some(t[i].physical % 256)
    else LookupFrom(t, number, i + 1)
  }

  function Lookup(t: Table, number: byte): Option<byte> {
    LookupFrom(t, number, 0)
  }

  lemma {:induction false} FirstMatch(t: Table, number: byte, i: nat, from: nat)
    requires from <= i < SLOTS
    requires Misses(t, number, i)
    requires t[i].physical == number || number in t[i].mux
    ensures LookupFrom(t, number, from) == Some(if t[i].physical == number then number else t[i].physical % 256)
    decreases i - from
  {
    if from < i {
      FirstMatch(t, number, i, from + 1);
    }
  }

  lemma {:induction false} NoMatch(t: Table, number: byte, from: nat)
    requires from <= SLOTS && Misses(t, number, SLOTS)
    ensures LookupFrom(t, number, from) == None
    decreases SLOTS - from
  {
    if from < SLOTS {
      NoMatch(t, number, from + 1);
    }
  }

  // Ids are in range: nothing wraps, and physical ids are below the virtual ones.
  ghost predicate InRange(start: nat, n: nat, m: nat) {
    n <= SLOTS && m <= SLOTS && Times(n, m) <= 128 && start + n <= FIRST_VIRTUAL
  }

  /** Row-major numbering is injective. */
  lemma NumberingInjective(m: nat, i: nat, j: nat, i': nat, j': nat)
    requires j < m && j' < m && Times(i, m) + j == Times(i', m) + j'
    ensures i == i' && j == j'
  {
    if i < i' {
      TimesGrows(i, i', m);
    } else if i' < i {
      TimesGrows(i', i, m);
    }
  }

  lemma NumberInRange(n: nat, m: nat, i: nat, j: nat)
    requires i < n && j < m && Times(n, m) <= 128
    ensures Times(i, m) + j < Times(n, m) && Number(m, i, j) == FIRST_VIRTUAL + Times(i, m) + j
  {
    TimesGrows(i, n, m);
  }

  /** Virtual ids are pairwise distinct. */
  lemma VirtualIdsDistinct(n: nat, m: nat, i: nat, j: nat, i': nat, j': nat)
    requires Times(n, m) <= 128 && i < n && i' < n && j < m && j' < m
    ensures Number(m, i, j) == Number(m, i', j') <==> i == i' && j == j'
  {
    NumberInRange(n, m, i, j);
    NumberInRange(n, m, i', j');
    if Number(m, i, j) == Number(m, i', j') {
      NumberingInjective(m, i, j, i', j');
    }
  }

  /** What the filled table holds: each row its physical id and its virtual ids, with
      zeros behind them; and zeros in the rows that were not filled. */
  ghost predicate Describes(t: Table, start: nat, n: nat, m: nat)
    requires n <= SLOTS && m <= SLOTS
  {
    && (forall i :: 0 <= i < n ==> t[i].physical == start + i)
    && (forall i, j :: 0 <= i < n && 0 <= j < m ==> t[i].mux[j] == Number(m, i, j))
    && (forall i, j :: 0 <= i < n && m <= j < SLOTS ==> t[i].mux[j] == 0)
    && (forall i :: n <= i < SLOTS ==> t[i] == Entry(0, seq(SLOTS, _ => 0)))
  }

  lemma FilledDescribes(start: nat, n: nat, m: nat)
    requires InRange(start, n, m)
    ensures Describes(Filled(ZEROED, start, n, m), start, n, m)
  {
    var t := Filled(ZEROED, start, n, m);
    forall i | 0 <= i < n
      ensures t[i].physical == start + i
      ensures forall j :: 0 <= j < SLOTS ==> t[i].mux[j] == if j < m then Number(m, i, j) else 0
    {
      assert t[i] == RowFilled(ZEROED[i], start, m, i);
    }
  }

  ghost predicate Misses(t: Table, number: byte, i: nat)
    requires i <= SLOTS
  {
    forall k :: 0 <= k < i ==> t[k].physical != number && number !in t[k].mux
  }

  lemma MissesRow(t: Table, start: nat, n: nat, m: nat, k: nat, number: byte)
    requires InRange(start, n, m) && Describes(t, start, n, m) && k < n
    requires number != 0 && number != start + k && forall j :: 0 <= j < m ==> number != Number(m, k, j)
    ensures t[k].physical != number && number !in t[k].mux
  {
    forall j | 0 <= j < SLOTS
      ensures t[k].mux[j] != number
    {
      assert j < m ==> t[k].mux[j] == Number(m, k, j);
    }
  }

  lemma VirtualIn(t: Table, start: nat, n: nat, m: nat, i: nat, j: nat)
    requires InRange(start, n, m) && Describes(t, start, n, m) && i < n && j < m
    ensures Lookup(t, Number(m, i, j)) == Some(start + i)
  {
    var number := Number(m, i, j);
    NumberInRange(n, m, i, j);
    forall k | 0 <= k < i
      ensures t[k].physical != number && number !in t[k].mux
    {
      forall k' | 0 <= k' < m
        ensures number != Number(m, k, k')
      {
        VirtualIdsDistinct(n, m, i, j, k, k');
      }
      MissesRow(t, start, n, m, k, number);
    }
    assert t[i].mux[j] == number;
    FirstMatch(t, number, i, 0);
  }

  lemma PhysicalIn(t: Table, start: nat, n: nat, m: nat, i: nat)
    requires InRange(start, n, m) && Describes(t, start, n, m) && i < n
    ensures Lookup(t, start + i) == Some(start + i)
  {
    forall k | 0 <= k < i
      ensures t[k].physical != start + i && start + i !in t[k].mux
    {
      forall k' | 0 <= k' < m
        ensures start + i != Number(m, k, k')
      {
        NumberInRange(n, m, k, k');
      }
      MissesRow(t, start, n, m, k, start + i);
    }
    FirstMatch(t, start + i, i, 0);
  }

  /** The lookup inverts the numbering: every virtual id gives its physical interface. */
  lemma VirtualLookup(start: nat, n: nat, m: nat, i: nat, j: nat)
    requires InRange(start, n, m) && i < n && j < m
    ensures Lookup(Filled(ZEROED, start, n, m), Number(m, i, j)) == Some(start + i)
  {
    FilledDescribes(start, n, m);
    VirtualIn(Filled(ZEROED, start, n, m), start, n, m, i, j);
  }

  /** and every physical id gives itself. */
  lemma PhysicalLookup(start: nat, n: nat, m: nat, i: nat)
    requires InRange(start, n, m) && i < n
    ensures Lookup(Filled(ZEROED, start, n, m), start + i) == Some(start + i)
  {
    FilledDescribes(start, n, m);
    PhysicalIn(Filled(ZEROED, start, n, m), start, n, m, i);
  }

  ghost predicate Assigned(start: nat, n: nat, m: nat, number: byte) {
    || start <= number < start + n
    || exists i, j :: 0 <= i < n && 0 <= j < m && number == Number(m, i, j)
  }

  /** The lookup fails on every id that was not assigned, but for one: id 0 matches the
      entries that were never filled. */
  lemma LookupSucceedsIffAssignedOrZero(start: nat, n: nat, m: nat, number: byte)
    requires InRange(start, n, m)
    ensures Lookup(Filled(ZEROED, start, n, m), number).Some? <==> Assigned(start, n, m, number) || number == 0
  {
    FilledDescribes(start, n, m);
    SucceedsIff(Filled(ZEROED, start, n, m), start, n, m, number);
  }

  lemma SucceedsIff(t: Table, start: nat, n: nat, m: nat, number: byte)
    requires InRange(start, n, m) && Describes(t, start, n, m)
    ensures Lookup(t, number).Some? <==> Assigned(start, n, m, number) || number == 0
  {
    if start <= number < start + n {
      PhysicalIn(t, start, n, m, number - start);
    } else if i, j :| 0 <= i < n && 0 <= j < m && number == Number(m, i, j) {
      VirtualIn(t, start, n, m, i, j);
    } else if number == 0 {
      ZeroMatches(t, start, n, m);
    } else {
      forall k | 0 <= k < SLOTS
        ensures t[k].physical != number && number !in t[k].mux
      {
        if k < n {
          MissesRow(t, start, n, m, k, number);
        }
      }
      NoMatch(t, number, 0);
    }
  }

  lemma ZeroMatches(t: Table, start: nat, n: nat, m: nat)
    requires InRange(start, n, m) && Describes(t, start, n, m)
    ensures Lookup(t, 0).Some?
  {
    TimesIsProduct(n, m);
    if 0 < n && m < SLOTS {
      assert t[0].mux[m] == 0;
      SomeMatch(t, 0, 0, 0);
    } else {
      assert n < SLOTS;
      SomeMatch(t, 0, n, 0);
    }
  }

  lemma {:induction false} SomeMatch(t: Table, number: byte, i: nat, from: nat)
    requires from <= i < SLOTS && (t[i].physical == number || number in t[i].mux)
    ensures LookupFrom(t, number, from).Some?
    decreases i - from
  {
    if from < i {
      SomeMatch(t, number, i, from + 1);
    }
  }

  // ------------------------------------------------------------------------
  // Replies

  // MuxSupport == 1 and enough interfaces; the sum is a ULONG.
  predicate Applies(mux: bool, start: nat, n: nat, c: seq<byte>)
    requires |c| >= CONFIG_SIZE
  {
    mux && c[4] as int >= (start + n - 1) % 0x1_0000_0000
  }

  /** The reply to a request for the nine header bytes only: status and bytes. */
  function HeaderReply(mux: bool, start: nat, n: nat, m: nat, c: seq<byte>): (bool, seq<byte>)
    requires |c| == CONFIG_SIZE
  {
    if !Validate(c) then (false, c)
    else if Applies(mux, start, n, c) then (true, Rewrite(c, Times(n, m)))
    else (true, c)
  }

  /** The reply to a request for the whole descriptor. */
  function FullReply(mux: bool, start: nat, n: nat, m: nat, c: seq<byte>): (bool, seq<byte>)
    requires |c| >= CONFIG_SIZE
  {
    if Applies(mux, start, n, c) then
      if !Validate(c) then (false, c) else (true, Inject(c, n, m))
    else (true, c)
  }

  /** The header-only reply always carries the first nine bytes of the full reply;
      the two statuses differ exactly for an invalid header nothing is added to. */
  lemma HeaderReplyAgrees(mux: bool, start: nat, n: nat, m: nat, c: seq<byte>)
    requires |c| >= CONFIG_SIZE
    ensures |FullReply(mux, start, n, m, c).1| >= CONFIG_SIZE
    ensures HeaderReply(mux, start, n, m, c[..CONFIG_SIZE]).1 == FullReply(mux, start, n, m, c).1[..CONFIG_SIZE]
    ensures HeaderReply(mux, start, n, m, c[..CONFIG_SIZE]).0 == FullReply(mux, start, n, m, c).0
      <==> Validate(c) || Applies(mux, start, n, c)
  {
    var h := c[..CONFIG_SIZE];
    assert Rewrite(h, Times(n, m)) == Rewrite(c, Times(n, m))[..CONFIG_SIZE];
    assert Inject(c, n, m)[..CONFIG_SIZE] == Rewrite(c, Times(n, m))[..CONFIG_SIZE];
  }

  /** Which requests are answered with more interfaces: multiplexing must be on and the
      device have at least the interfaces up to the last physical one that carries it. */
  lemma RepliesExactly(mux: bool, start: nat, n: nat, m: nat, c: seq<byte>)
    requires |c| >= CONFIG_SIZE && 1 <= start + n <= 0x1_0000_0000
    ensures FullReply(mux, start, n, m, c) ==
      if !mux || c[4] as int < start + n - 1 then (true, c)
      else if c[1] == 2 && 1 <= c[0] <= 9 && 9 <= c[2] as int + 256 * c[3] as int then (true, Inject(c, n, m))
      else (false, c)
    ensures HeaderReply(mux, start, n, m, c[..CONFIG_SIZE]).0
      <==> c[1] == 2 && 1 <= c[0] <= 9 && 9 <= c[2] as int + 256 * c[3] as int
  {
    ValidatesExactly(c);
    ValidatesExactly(c[..CONFIG_SIZE]);
  }

  // ------------------------------------------------------------------------
  // In place

  class Filter {
    const buffer: array<byte>
    const table: array<Entry>
    const start: nat
    const n: nat
    const m: nat

    ghost predicate Valid()
      reads this, table
    {
      n <= SLOTS && m <= SLOTS && table.Length == SLOTS && forall i :: 0 <= i < table.Length ==> |table[i].mux| == SLOTS
    }

    constructor (size: nat, start: nat, n: nat, m: nat)
      requires n <= SLOTS && m <= SLOTS
      ensures Valid() && table[..] == ZEROED && buffer.Length == size
      ensures this.start == start && this.n == n && this.m == m && fresh(buffer) && fresh(table)
    {
      buffer := new byte[size](_ => 0);
      table := new Entry[SLOTS](_ => Entry(0, seq(SLOTS, _ => 0)));
      this.start, this.n, this.m := start, n, m;
    }

    /** USBPNP_SelectAndAddInterfaces: the descriptor in the buffer becomes the injected
        one, what lies behind it stays, and the table is filled. */
    method SelectAndAddInterfaces() returns (length: nat)
      requires Valid() && CONFIG_SIZE <= buffer.Length
      requires CONFIG_SIZE <= TotalLength(buffer[..]) && TotalLength(buffer[..]) + INTERFACE_SIZE * Times(n, m) <= buffer.Length
      modifies buffer, table
      ensures Valid() && table[..] == Filled(old(table[..]), start, n, m)
      ensures var total := old(TotalLength(buffer[..]));
        && buffer[..total + INTERFACE_SIZE * Times(n, m)] == Inject(old(buffer[..total]), n, m)
        && buffer[total + INTERFACE_SIZE * Times(n, m)..] == old(buffer[total + INTERFACE_SIZE * Times(n, m)..])
      ensures length == TotalLength(buffer[..])
      ensures var total := old(buffer[2] as int + 256 * buffer[3] as int);
        Announced(old(buffer[..total]), buffer[..], table[..], n, m)
      ensures length == buffer[2] as int + 256 * buffer[3] as int
    {
      ghost var was := buffer[..];
      var total := TotalLength(buffer[..]);
      TimesIsProduct(n, m);
      length := RewriteHeader(total, n * m);
      ghost var head := buffer[..];
      RowsChain(m, n);
      AppendRows(total);
      PutBetween(was[..total], head, total, Concat(Rows(m, n)), Times(n, m));
      InjectionAnnounced(was[..total], buffer[..], old(table[..]), start, n, m);
    }

    // The first i rows have been appended to what was there.
    ghost predicate RowsDone(total: nat, i: nat, at: nat, head: seq<byte>, rows: Table)
      requires Valid() && i <= n
      reads this, buffer, table
    {
      && |head| == buffer.Length && |rows| == SLOTS
      && at == total + |Concat(Rows(m, i))| <= buffer.Length
      && buffer[..] == Put(head, total, Concat(Rows(m, i)))
      && table[..] == Filled(rows, start, i, m)
    }

    // The outer loop.
    method AppendRows(total: nat)
      requires Valid() && total + INTERFACE_SIZE * Times(n, m) <= buffer.Length
      modifies buffer, table
      ensures Valid() && table[..] == Filled(old(table[..]), start, n, m)
      ensures total + |Concat(Rows(m, n))| <= buffer.Length
      ensures buffer[..] == Put(old(buffer[..]), total, Concat(Rows(m, n)))
    {
      ghost var head, rows := buffer[..], table[..];
      RowsEmpty(head, total, m);
      FilledNone(rows, start, m);
      assert RowsDone(total, 0, total, head, rows);
      var at := total;
      var i := 0;
      while i < n
        invariant i <= n && Valid() && RowsDone(total, i, at, head, rows)
      {
        at := AppendRow(total, i, at, head, rows);
        i := i + 1;
      }
    }

    method AppendRow(total: nat, i: nat, at: nat, ghost head: seq<byte>, ghost rows: Table) returns (next: nat)
      requires Valid() && i < n && total + INTERFACE_SIZE * Times(n, m) <= buffer.Length
      requires RowsDone(total, i, at, head, rows)
      modifies buffer, table
      ensures Valid() && RowsDone(total, i + 1, next, head, rows)
    {
      RowStep(head, total, rows, start, m, i, n);
      ghost var rest := table[..];
      assert table[i] == rest[i];
      next := FillRow(i, at);
      assert table[..] == rest[i := RowFilled(rows[i], start, m, i)];
    }

    // The three header fields.
    method RewriteHeader(total: nat, extra: nat) returns (length: nat)
      requires CONFIG_SIZE <= total <= buffer.Length && total == TotalLength(buffer[..])
      modifies buffer
      ensures buffer[..total] == Rewrite(old(buffer[..total]), extra)
      ensures buffer[total..] == old(buffer[total..])
      ensures length == TotalLength(buffer[..])
    {
      length := (total + INTERFACE_SIZE * extra) % 0x1_0000;
      buffer[2], buffer[3] := length % 256, length / 256;
      buffer[4] := (buffer[4] as int + extra) % 256;
    }

    // The inner loop: one physical interface and its virtual ones.
    method FillRow(i: nat, from: nat) returns (at: nat)
      requires Valid() && i < n && from + INTERFACE_SIZE * m <= buffer.Length
      modifies buffer, table
      ensures Valid()
      ensures |Concat(Row(m, i, m))| == INTERFACE_SIZE * m && buffer[..] == Put(old(buffer[..]), from, Concat(Row(m, i, m)))
      ensures table[..] == old(table[..])[i := RowFilled(old(table[i]), start, m, i)]
      ensures at == from + INTERFACE_SIZE * m
    {
      ghost var was, e := buffer[..], table[i];
      table[i] := table[i].(physical := (start + i) % 0x1_0000_0000);
      at := from;
      var j := 0;
      assert Concat(Row(m, i, 0)) == [];
      while j < m
        invariant j <= m && at == from + INTERFACE_SIZE * j
        invariant |Concat(Row(m, i, j))| == INTERFACE_SIZE * j
        invariant buffer[..] == Put(was, from, Concat(Row(m, i, j)))
        invariant |table[i].mux| == SLOTS
        invariant table[..] == old(table[..])[i := table[i]] && table[i].physical == (start + i) % 0x1_0000_0000
        invariant forall k :: 0 <= k < SLOTS ==> table[i].mux[k] == if k < j then Number(m, i, k) else e.mux[k]
      {
        AddVirtual(i, j, at);
        RowGrows(m, i, j);
        PutAfterPut(was, from, Concat(Row(m, i, j)), Interface(Number(m, i, j)));
        at := at + INTERFACE_SIZE;
        j := j + 1;
      }
      RowIsFilled(table[i], e, start, m, i);
    }

    // One virtual interface.
    method AddVirtual(i: nat, j: nat, at: nat)
      requires Valid() && i < n && j < m && at + INTERFACE_SIZE <= buffer.Length
      modifies buffer, table
      ensures Valid()
      ensures buffer[..] == Put(old(buffer[..]), at, Interface(Number(m, i, j)))
      ensures table[..] == old(table[..])[i := old(table[i]).(mux := old(table[i]).mux[j := Number(m, i, j)])]
    {
      TimesIsProduct(i, m);
      var number: byte := (FIRST_VIRTUAL + (i * m) + j) % 256;
      assert number == Number(m, i, j);
      Memmove(buffer, at, Interface(number));
      table[i] := table[i].(mux := table[i].mux[j := number]);
    }

    /** The nested search of IOCTL_QCDEV_GET_MUX_INTERFACE. */
    method GetMuxInterface(number: byte) returns (physical: Option<byte>)
      requires Valid()
      ensures physical == Lookup(table[..], number)
    {
      for i := 0 to SLOTS
        invariant Lookup(table[..], number) == LookupFrom(table[..], number, i)
      {
        assert table[..][i] == table[i] && table[i] in table[..];
        if table[i].physical == number {
          return Some(number);
        }
        for j := 0 to SLOTS
          invariant number !in table[i].mux[..j]
        {
          if table[i].mux[j] == number {
            return Some(table[i].physical % 256);
          }
        }
        assert table[i].mux[..SLOTS] == table[i].mux;
      }
      physical := None;
    }
  }

  /** Virtual interface j of physical interface i is announced by the descriptor k = i * m + j
      behind the first `total` bytes, and recorded. */
  predicate IsAnnounced(total: nat, b: seq<byte>, t: Table, m: nat, i: nat, j: nat)
    requires i < SLOTS && j < SLOTS
  {
    IsDescriptor(b, total, i * m + j, t[i].mux[j])
  }

  // Descriptor k behind the first `total` bytes has the number 0x80 + k, and this is recorded.
  predicate IsDescriptor(b: seq<byte>, total: nat, k: nat, recorded: nat) {
    && total + 9 * k + 9 <= |b|
    && Announces(b, total + 9 * k, (0x80 + k) % 256)
    && recorded == b[total + 9 * k + 2]
  }

  /** What is sent on for the descriptor c, and what the table holds, byte by byte. */
  ghost predicate Announced(c: seq<byte>, b: seq<byte>, t: Table, n: nat, m: nat)
    requires n <= SLOTS && m <= SLOTS
  {
    && CONFIG_SIZE <= |c| <= |b|
    && b[2] as int + 256 * b[3] as int == (c[2] as int + 256 * c[3] as int + 9 * (n * m)) % 65536
    && b[4] as int == (c[4] as int + n * m) % 256
    && forall i, j :: 0 <= i < n && 0 <= j < m ==> IsAnnounced(|c|, b, t, m, i, j)
  }

  lemma InjectionAnnounced(c: seq<byte>, b: seq<byte>, rows: Table, start: nat, n: nat, m: nat)
    requires |c| >= CONFIG_SIZE && n <= SLOTS && m <= SLOTS
    requires |Inject(c, n, m)| <= |b| && b[..|Inject(c, n, m)|] == Inject(c, n, m)
    ensures Announced(c, b, Filled(rows, start, n, m), n, m)
  {
    InjectCounts(c, n, m);
    SamePrefix(b, Inject(c, n, m));
    forall i, j | 0 <= i < n && 0 <= j < m
      ensures IsAnnounced(|c|, b, Filled(rows, start, n, m), m, i, j)
    {
      OneAnnounced(c, b, rows, start, n, m, i, j);
    }
  }

  lemma OneAnnounced(c: seq<byte>, b: seq<byte>, rows: Table, start: nat, n: nat, m: nat, i: nat, j: nat)
    requires |c| >= CONFIG_SIZE && i < n <= SLOTS && j < m <= SLOTS
    requires |Inject(c, n, m)| <= |b| && b[..|Inject(c, n, m)|] == Inject(c, n, m)
    ensures IsAnnounced(|c|, b, Filled(rows, start, n, m), m, i, j)
  {
    TimesIsProduct(i, m);
    DescriptorOfRow(c, b, rows, start, n, m, i, j, i * m + j);
  }

  lemma DescriptorOfRow(c: seq<byte>, b: seq<byte>, rows: Table, start: nat, n: nat, m: nat, i: nat, j: nat, k: nat)
    requires |c| >= CONFIG_SIZE && i < n <= SLOTS && j < m <= SLOTS && k == Times(i, m) + j
    requires |Inject(c, n, m)| <= |b| && b[..|Inject(c, n, m)|] == Inject(c, n, m)
    ensures IsDescriptor(b, |c|, k, Filled(rows, start, n, m)[i].mux[j])
  {
    InjectAnnouncesRow(c, n, m, i, j, k);
    Recorded(rows, start, n, m, i, j, k);
    StillDescriptor(b, Inject(c, n, m), |c|, k, Filled(rows, start, n, m)[i].mux[j]);
  }

  lemma StillDescriptor(b: seq<byte>, r: seq<byte>, total: nat, k: nat, recorded: nat)
    requires |r| <= |b| && b[..|r|] == r && total + 9 * k + 9 <= |r|
    requires Announces(r, total + 9 * k, (0x80 + k) % 256) && recorded == (0x80 + k) % 256
    ensures IsDescriptor(b, total, k, recorded)
  {
    SamePrefix(b, r);
  }

  lemma Recorded(rows: Table, start: nat, n: nat, m: nat, i: nat, j: nat, k: nat)
    requires i < n <= SLOTS && j < m <= SLOTS && k == Times(i, m) + j
    ensures Filled(rows, start, n, m)[i].mux[j] == (0x80 + k) % 256
  {
    assert Filled(rows, start, n, m)[i] == RowFilled(rows[i], start, m, i);
  }

  lemma NumberIs(m: nat, i: nat, j: nat)
    ensures Number(m, i, j) == (0x80 + (i * m + j)) % 256
  {
    TimesIsProduct(i, m);
  }

  lemma SamePrefix(buffer: seq<byte>, r: seq<byte>)
    requires |r| <= |buffer| && buffer[..|r|] == r
    ensures forall k :: 0 <= k < |r| ==> buffer[k] == r[k]
  {
  }

  /** End to end: the interface number found in an appended descriptor is looked up to the
      physical interface behind it. */
  lemma AnnouncedIsFound(c: seq<byte>, b: seq<byte>, start: nat, n: nat, m: nat, i: nat, j: nat)
    requires InRange(start, n, m) && i < n && j < m
    requires Announced(c, b, Filled(ZEROED, start, n, m), n, m)
    ensures |c| + 9 * (i * m + j) + 2 < |b|
    ensures Lookup(Filled(ZEROED, start, n, m), b[|c| + 9 * (i * m + j) + 2]) == Some(start + i)
  {
    assert IsAnnounced(|c|, b, Filled(ZEROED, start, n, m), m, i, j);
    NumberIs(m, i, j);
    VirtualLookup(start, n, m, i, j);
  }

  lemma RowIsFilled(now: Entry, e: Entry, start: nat, m: nat, i: nat)
    requires |now.mux| == |e.mux| == SLOTS && now.physical == (start + i) % 0x1_0000_0000
    requires forall k :: 0 <= k < SLOTS ==> now.mux[k] == if k < m then Number(m, i, k) else e.mux[k]
    ensures now == RowFilled(e, start, m, i)
  {
  }

  lemma Grow(b: seq<byte>, at: nat, x: seq<byte>, y: seq<byte>, z: seq<byte>)
    requires z == x + y && at + |z| <= |b|
    ensures at + |x| + |y| == at + |z| && Put(Put(b, at, x), at + |x|, y) == Put(b, at, z)
  {
    PutAfterPut(b, at, x, y);
  }

  lemma RowGrows(m: nat, i: nat, j: nat)
    ensures Concat(Row(m, i, j + 1)) == Concat(Row(m, i, j)) + Interface(Number(m, i, j))
  {
    ConcatOne(Row(m, i, j), Interface(Number(m, i, j)));
  }

  lemma RowsEmpty(b: seq<byte>, at: nat, m: nat)
    requires at <= |b|
    ensures Concat(Rows(m, 0)) == [] && b == Put(b, at, [])
  {
  }

  lemma FilledNone(t: Table, start: nat, m: nat)
    requires m <= SLOTS
    ensures Filled(t, start, 0, m) == t
  {
  }

  lemma FilledGrows(t: Table, start: nat, i: nat, m: nat)
    requires i < SLOTS && m <= SLOTS
    ensures Filled(t, start, i, m)[i] == t[i]
    ensures Filled(t, start, i + 1, m) == Filled(t, start, i, m)[i := RowFilled(t[i], start, m, i)]
  {
  }

  // One more row fits, and extends what has been written and filled in.
  lemma RowStep(b: seq<byte>, at: nat, t: Table, start: nat, m: nat, i: nat, n: nat)
    requires i < n <= SLOTS && m <= SLOTS && at + INTERFACE_SIZE * Times(n, m) <= |b|
    ensures at + |Concat(Rows(m, i))| + INTERFACE_SIZE * m == at + |Concat(Rows(m, i + 1))| <= |b|
    ensures |Concat(Row(m, i, m))| == INTERFACE_SIZE * m
    ensures Put(Put(b, at, Concat(Rows(m, i))), at + |Concat(Rows(m, i))|, Concat(Row(m, i, m)))
         == Put(b, at, Concat(Rows(m, i + 1)))
    ensures Filled(t, start, i, m)[i] == t[i]
    ensures Filled(t, start, i + 1, m) == Filled(t, start, i, m)[i := RowFilled(t[i], start, m, i)]
  {
    NextRowFits(m, i, n);
    NextRow(b, at, m, i);
    FilledGrows(t, start, i, m);
  }

  // One more row extends what has been written.
  lemma NextRow(b: seq<byte>, at: nat, m: nat, i: nat)
    requires at + |Concat(Rows(m, i + 1))| <= |b|
    ensures |Concat(Rows(m, i + 1))| == |Concat(Rows(m, i))| + |Concat(Row(m, i, m))|
    ensures Put(Put(b, at, Concat(Rows(m, i))), at + |Concat(Rows(m, i))|, Concat(Row(m, i, m)))
         == Put(b, at, Concat(Rows(m, i + 1)))
  {
    NextRowBytes(m, i);
    Grow(b, at, Concat(Rows(m, i)), Concat(Row(m, i, m)), Concat(Rows(m, i + 1)));
  }

  lemma NextRowBytes(m: nat, i: nat)
    ensures Concat(Rows(m, i + 1)) == Concat(Rows(m, i)) + Concat(Row(m, i, m))
  {
    ConcatAppend(Rows(m, i), Row(m, i, m));
  }

  lemma NextRowFits(m: nat, i: nat, n: nat)
    requires i < n
    ensures |Concat(Row(m, i, m))| == INTERFACE_SIZE * m
    ensures |Concat(Rows(m, i + 1))| <= INTERFACE_SIZE * Times(n, m)
  {
    TimesGrows(i, n, m);
    RowChains(m, i, m);
    RowsChain(m, i + 1);
  }

  lemma PutBetween(c: seq<byte>, head: seq<byte>, at: nat, added: seq<byte>, extra: nat)
    requires |c| == at && CONFIG_SIZE <= at && at + |added| <= |head| && head[..at] == Rewrite(c, extra)
    ensures Put(head, at, added)[..at + |added|] == Rewrite(c, extra) + added
    ensures Put(head, at, added)[at + |added|..] == head[at + |added|..]
    ensures TotalLength(Put(head, at, added)) == TotalLength(head)
  {
  }
}
