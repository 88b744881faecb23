// Virtual interface descriptors (src/windows/filter/qcfilter.c): what
// USBPNP_SelectAndAddInterfaces appends to a configuration descriptor (sections
// 9.6.3 and 9.6.5 of the USB 2.0 specification), and what the chain looks like after it.
module Descriptors {
  import opened Bytes

  const CONFIG_SIZE: nat := 9
  const INTERFACE_SIZE: nat := 9
  const INTERFACE_TYPE: byte := 4
  const FIRST_VIRTUAL: nat := 0x80

  // wTotalLength, least significant byte first.
  function TotalLength(c: seq<byte>): nat
    requires |c| >= 4
  {
    c[2] as int + 256 * c[3] as int
  }

  /** The header fields rewritten for `extra` more interfaces, in their own widths. */
  function Rewrite(c: seq<byte>, extra: nat): (r: seq<byte>)
    requires |c| >= CONFIG_SIZE
    ensures |r| == |c|
    ensures forall k :: 0 <= k < |c| && k != 2 && k != 3 && k != 4 ==> r[k] == c[k]
  {
    var total := (TotalLength(c) + INTERFACE_SIZE * extra) % 0x1_0000;
    c[2 := total % 256][3 := total / 256][4 := (c[4] as int + extra) % 256]
  }

  // One appended interface descriptor.
  function Interface(number: byte): (d: seq<byte>)
    ensures |d| == INTERFACE_SIZE
  {
    [INTERFACE_SIZE, INTERFACE_TYPE, number, 0, 0, 0xff, 0xff, 0xff, 0]
  }

  /** The product i * m, by repeated addition, which is how the nested loops reach it. */
  function Times(i: nat, m: nat): nat {
    if i == 0 then 0 else Times(i - 1, m) + m
  }

  lemma {:induction false} TimesIsProduct(i: nat, m: nat)
    ensures Times(i, m) == i * m
  {
    if i > 0 {
      TimesIsProduct(i - 1, m);
      assert (i - 1) * m + m == i * m;
    }
  }

  lemma {:induction false} TimesGrows(i: nat, k: nat, m: nat)
    requires i < k
    ensures Times(i, m) + m == Times(i + 1, m) <= Times(k, m)
  {
    if i + 1 < k {
      TimesGrows(i, k - 1, m);
    }
  }

  function Number(m: nat, i: nat, j: nat): byte {
    (FIRST_VIRTUAL + Times(i, m) + j) % 256
  }

  // The descriptors of one physical interface, and of the first n of them.
  function Row(m: nat, i: nat, count: nat): seq<seq<byte>> {
    if count == 0 then [] else Row(m, i, count - 1) + [Interface(Number(m, i, count - 1))]
  }

  function Rows(m: nat, n: nat): seq<seq<byte>> {
    if n == 0 then [] else Rows(m, n - 1) + Row(m, n - 1, m)
  }

  /** The descriptor that USBPNP_SelectAndAddInterfaces leaves in the buffer. */
  function Inject(c: seq<byte>, n: nat, m: nat): seq<byte>
    requires |c| >= CONFIG_SIZE
  {
    Rewrite(c, Times(n, m)) + Concat(Rows(m, n))
  }

  // ------------------------------------------------------------------------
  // Walking a chain of descriptors

  /** The walk by bLength from the front ends exactly at the end. */
  predicate Chain(c: seq<byte>)
    decreases |c|
  {
    c == [] || (0 < c[0] && c[0] as int <= |c| && Chain(c[c[0]..]))
  }

  // The descriptors that the walk finds.
  function Walk(c: seq<byte>): seq<seq<byte>>
    requires Chain(c)
    decreases |c|
  {
    if c == [] then [] else [c[..c[0]]] + Walk(c[c[0]..])
  }

  predicate IsInterface(d: seq<byte>) {
    |d| >= 2 && d[1] == INTERFACE_TYPE
  }

  function Interfaces(ds: seq<seq<byte>>): nat {
    if ds == [] then 0 else (if IsInterface(ds[0]) then 1 else 0) + Interfaces(ds[1..])
  }

  lemma {:induction false} InterfacesAppend(a: seq<seq<byte>>, b: seq<seq<byte>>)
    ensures Interfaces(a + b) == Interfaces(a) + Interfaces(b)
  {
    if a == [] {
      assert a + b == b;
    } else {
      InterfacesAppend(a[1..], b);
      assert (a + b)[1..] == a[1..] + b;
    }
  }

  lemma {:induction false} WalkAppend(a: seq<byte>, b: seq<byte>)
    requires Chain(a) && Chain(b)
    ensures Chain(a + b) && Walk(a + b) == Walk(a) + Walk(b)
    decreases |a|
  {
    if a == [] {
      assert a + b == b;
      assert Walk(a) + Walk(b) == Walk(b);
    } else {
      WalkAppend(a[a[0]..], b);
      WalkOne(a, b);
    }
  }

  lemma WalkOne(a: seq<byte>, b: seq<byte>)
    requires Chain(a) && Chain(b) && a != []
    requires Chain(a[a[0]..] + b) && Walk(a[a[0]..] + b) == Walk(a[a[0]..]) + Walk(b)
    ensures Chain(a + b) && Walk(a + b) == Walk(a) + Walk(b)
  {
    var n, c := a[0], a + b;
    CutAt(a, b, n);
    assert Walk(c) == [c[..n]] + Walk(c[n..]);
    assert Walk(a) == [a[..n]] + Walk(a[n..]);
    Prepend(a[..n], Walk(a[n..]), Walk(b));
  }

  lemma CutAt(a: seq<byte>, b: seq<byte>, n: nat)
    requires 0 < n <= |a|
    ensures (a + b)[0] == a[0] && (a + b)[n..] == a[n..] + b && (a + b)[..n] == a[..n]
  {
  }

  lemma Prepend(d: seq<byte>, x: seq<seq<byte>>, y: seq<seq<byte>>)
    ensures [d] + (x + y) == ([d] + x) + y
  {
  }

  /** These descriptors are n interface descriptors that chain. */
  ghost predicate ChainsAs(ds: seq<seq<byte>>, n: nat) {
    var c := Concat(ds);
    Chain(c) && Walk(c) == ds && |c| == INTERFACE_SIZE * n && |ds| == n && Interfaces(ds) == n
  }

  lemma ChainBoth(a: seq<seq<byte>>, n: nat, b: seq<seq<byte>>, k: nat)
    requires ChainsAs(a, n) && ChainsAs(b, k)
    ensures ChainsAs(a + b, n + k)
  {
    ConcatAppend(a, b);
    WalkAppend(Concat(a), Concat(b));
    InterfacesAppend(a, b);
  }

  lemma ChainOne(number: byte)
    ensures ChainsAs([Interface(number)], 1)
  {
    var d := Interface(number);
    assert Concat([d]) == d + Concat([]) == d;
    assert d[d[0]..] == [] && d[..d[0]] == d;
    assert Walk(d) == [d] + Walk([]);
    assert Interfaces([d]) == 1 + Interfaces([d][1..]);
  }

  lemma {:induction false} RowChains(m: nat, i: nat, count: nat)
    ensures ChainsAs(Row(m, i, count), count)
  {
    if count > 0 {
      RowChains(m, i, count - 1);
      ChainOne(Number(m, i, count - 1));
      ChainBoth(Row(m, i, count - 1), count - 1, [Interface(Number(m, i, count - 1))], 1);
    }
  }

  lemma {:induction false} RowsChain(m: nat, n: nat)
    ensures ChainsAs(Rows(m, n), Times(n, m))
  {
    if n > 0 {
      RowsChain(m, n - 1);
      RowChains(m, n - 1, m);
      ChainBoth(Rows(m, n - 1), Times(n - 1, m), Row(m, n - 1, m), m);
    }
  }

  lemma {:induction false} RowAt(m: nat, i: nat, count: nat, j: nat)
    requires j < count
    ensures |Concat(Row(m, i, count))| == INTERFACE_SIZE * count
    ensures Concat(Row(m, i, count))[INTERFACE_SIZE * j..INTERFACE_SIZE * (j + 1)] == Interface(Number(m, i, j))
  {
    RowChains(m, i, count);
    RowChains(m, i, count - 1);
    ConcatOne(Row(m, i, count - 1), Interface(Number(m, i, count - 1)));
    if j < count - 1 {
      RowAt(m, i, count - 1, j);
      InFront(Concat(Row(m, i, count - 1)), Interface(Number(m, i, count - 1)), INTERFACE_SIZE * j, INTERFACE_SIZE * (j + 1));
    }
  }

  lemma InFront(a: seq<byte>, b: seq<byte>, lo: nat, hi: nat)
    requires lo <= hi <= |a|
    ensures (a + b)[lo..hi] == a[lo..hi]
  {
  }

  lemma Behind(a: seq<byte>, b: seq<byte>, lo: nat, hi: nat)
    requires lo <= hi <= |b|
    ensures (a + b)[|a| + lo..|a| + hi] == b[lo..hi]
  {
  }

  // Descriptor k = i * m + j of those appended is number j of row i.
  lemma {:induction false} RowsAt(m: nat, n: nat, i: nat, j: nat, k: nat)
    requires i < n && j < m && k == Times(i, m) + j
    ensures INTERFACE_SIZE * (k + 1) <= |Concat(Rows(m, n))|
    ensures Concat(Rows(m, n))[INTERFACE_SIZE * k..INTERFACE_SIZE * (k + 1)] == Interface(Number(m, i, j))
  {
    RowsEnd(m, n);
    RowAt(m, n - 1, m, j);
    var before, last := Concat(Rows(m, n - 1)), Concat(Row(m, n - 1, m));
    if i < n - 1 {
      TimesGrows(i, n - 1, m);
      RowsAt(m, n - 1, i, j, k);
      InFront(before, last, INTERFACE_SIZE * k, INTERFACE_SIZE * (k + 1));
    } else {
      Behind(before, last, INTERFACE_SIZE * j, INTERFACE_SIZE * (j + 1));
    }
  }

  lemma RowsEnd(m: nat, n: nat)
    requires 0 < n
    ensures Concat(Rows(m, n)) == Concat(Rows(m, n - 1)) + Concat(Row(m, n - 1, m))
    ensures |Concat(Rows(m, n - 1))| == INTERFACE_SIZE * Times(n - 1, m)
    ensures |Concat(Row(m, n - 1, m))| == INTERFACE_SIZE * m
  {
    RowsChain(m, n - 1);
    RowChains(m, n - 1, m);
    ConcatAppend(Rows(m, n - 1), Row(m, n - 1, m));
  }

  // The nine bytes of an appended descriptor, from `at` on: number in byte 2.
  predicate Announces(r: seq<byte>, at: nat, number: byte)
    requires at + 9 <= |r|
  {
    && r[at] == 9 && r[at + 1] == 4
    && r[at + 2] == number && r[at + 3] == 0 && r[at + 4] == 0
    && r[at + 5] == 0xff && r[at + 6] == 0xff && r[at + 7] == 0xff && r[at + 8] == 0
  }

  /** What is appended: virtual interface j of physical interface i is announced by descriptor
      k = i * m + j behind the original, with interface number 0x80 + k. */
  lemma InjectAnnounces(c: seq<byte>, n: nat, m: nat, i: nat, j: nat, k: nat)
    requires |c| >= CONFIG_SIZE && i < n && j < m && k == i * m + j
    ensures |c| + 9 * k + 9 <= |Inject(c, n, m)|
    ensures Announces(Inject(c, n, m), |c| + 9 * k, (0x80 + k) % 256)
  {
    TimesIsProduct(i, m);
    InjectAnnouncesRow(c, n, m, i, j, k);
  }

  lemma InjectAnnouncesRow(c: seq<byte>, n: nat, m: nat, i: nat, j: nat, k: nat)
    requires |c| >= CONFIG_SIZE && i < n && j < m && k == Times(i, m) + j
    ensures |c| + 9 * k + 9 <= |Inject(c, n, m)|
    ensures Announces(Inject(c, n, m), |c| + 9 * k, (0x80 + k) % 256)
  {
    RowsAt(m, n, i, j, k);
    AnnouncesAt(Rewrite(c, Times(n, m)), Concat(Rows(m, n)), 9 * k, Number(m, i, j));
  }

  lemma AnnouncesAt(head: seq<byte>, tail: seq<byte>, at: nat, number: byte)
    requires at + 9 <= |tail| && tail[at..at + 9] == Interface(number)
    ensures Announces(head + tail, |head| + at, number)
  {
    var d := Interface(number);
    assert forall b :: 0 <= b < 9 ==> (head + tail)[|head| + at + b] == tail[at..at + 9][b] == d[b];
  }

  /** The header that is sent on: total length and interface count, least significant byte first. */
  lemma InjectCounts(c: seq<byte>, n: nat, m: nat)
    requires |c| >= CONFIG_SIZE
    ensures var r := Inject(c, n, m);
      && |r| == |c| + 9 * (n * m)
      && r[2] as int + 256 * r[3] as int == (c[2] as int + 256 * c[3] as int + 9 * (n * m)) % 65536
      && r[4] as int == (c[4] as int + n * m) % 256
  {
    TimesIsProduct(n, m);
    RowsChain(m, n);
    RewriteCounts(c, n * m);
    PrefixUnchanged(Rewrite(c, n * m), Concat(Rows(m, n)), 0);
  }

  lemma RewriteCounts(c: seq<byte>, extra: nat)
    requires |c| >= CONFIG_SIZE
    ensures var r := Rewrite(c, extra);
      && r[2] as int + 256 * r[3] as int == (c[2] as int + 256 * c[3] as int + 9 * extra) % 65536
      && r[4] as int == (c[4] as int + extra) % 256
  {
  }

  /** r is the chain c with the descriptors ds behind it: its length field is right, every
      old descriptor is there with only wTotalLength and bNumInterfaces rewritten in the
      first, and bNumInterfaces counts the new ones. */
  ghost predicate Extended(c: seq<byte>, r: seq<byte>, ds: seq<seq<byte>>)
    requires |c| >= CONFIG_SIZE && Chain(c) && c[0] > 4
  {
    && |c| <= |r| && Chain(r) && |r| == TotalLength(r)
    && (forall k :: 0 <= k < |c| && k != 2 && k != 3 && k != 4 ==> r[k] == c[k])
    && Walk(c) == [c[..c[0]]] + Walk(c[c[0]..])
    && Walk(r) == [r[..c[0]]] + Walk(c[c[0]..]) + ds
    && Interfaces(Walk(r)) == Interfaces(Walk(c)) + |ds|
    && r[4] as int == c[4] as int + |ds|
  }

  /** Injection keeps the chain well formed: if the walk of the original ends exactly at
      its wTotalLength, so does the walk of the result, with n * m interface
      descriptors appended. */
  lemma InjectKeepsChain(c: seq<byte>, n: nat, m: nat)
    requires |c| >= CONFIG_SIZE && Chain(c) && |c| == TotalLength(c) && c[0] > 4
    requires TotalLength(c) + INTERFACE_SIZE * Times(n, m) <= 0xFFFF && c[4] as int + Times(n, m) <= 0xFF
    ensures Extended(c, Inject(c, n, m), Rows(m, n))
    ensures |Rows(m, n)| == Times(n, m) && Interfaces(Rows(m, n)) == Times(n, m)
  {
    RewriteKeepsWalk(c, Times(n, m));
    RowsChain(m, n);
    AppendTo(c, Rewrite(c, Times(n, m)), Rows(m, n), Concat(Rows(m, n)));
  }

  lemma AppendTo(c: seq<byte>, h: seq<byte>, ds: seq<seq<byte>>, added: seq<byte>)
    requires |c| >= CONFIG_SIZE && Chain(c) && |c| == TotalLength(c) && c[0] > 4 && |h| == |c|
    requires Rewritten(c, h, |ds|)
    requires forall k :: 0 <= k < |c| && k != 2 && k != 3 && k != 4 ==> h[k] == c[k]
    requires Chain(added) && Walk(added) == ds && |added| == INTERFACE_SIZE * |ds| && Interfaces(ds) == |ds|
    ensures Extended(c, h + added, ds)
  {
    WalkAppend(h, added);
    InterfacesAppend(Walk(h), ds);
    PrefixUnchanged(h, added, c[0]);
  }

  lemma PrefixUnchanged(h: seq<byte>, tail: seq<byte>, k: nat)
    requires k <= |h| && |h| >= 4
    ensures (h + tail)[..k] == h[..k] && TotalLength(h + tail) == TotalLength(h)
    ensures forall i :: 0 <= i < |h| ==> (h + tail)[i] == h[i]
  {
  }

  lemma RewriteFields(c: seq<byte>, extra: nat)
    requires |c| >= CONFIG_SIZE && TotalLength(c) + INTERFACE_SIZE * extra <= 0xFFFF
    ensures TotalLength(Rewrite(c, extra)) == TotalLength(c) + INTERFACE_SIZE * extra
    ensures Rewrite(c, extra)[4] as int == (c[4] as int + extra) % 256
  {
  }

  ghost predicate Rewritten(c: seq<byte>, h: seq<byte>, extra: nat)
    requires |c| >= CONFIG_SIZE && Chain(c) && c[0] > 4 && |h| == |c|
  {
    && Chain(h) && TotalLength(h) == TotalLength(c) + INTERFACE_SIZE * extra
    && Walk(c) == [c[..c[0]]] + Walk(c[c[0]..])
    && Walk(h) == [h[..c[0]]] + Walk(c[c[0]..])
    && Interfaces(Walk(h)) == Interfaces(Walk(c))
    && h[4] as int == c[4] as int + extra
  }

  lemma RewriteKeepsWalk(c: seq<byte>, extra: nat)
    requires |c| >= CONFIG_SIZE && Chain(c) && c[0] > 4
    requires TotalLength(c) + INTERFACE_SIZE * extra <= 0xFFFF && c[4] as int + extra <= 0xFF
    ensures Rewritten(c, Rewrite(c, extra), extra)
  {
    var h, k := Rewrite(c, extra), c[0];
    RewriteFields(c, extra);
    assert h[k..] == c[k..];
    assert Walk(h) == [h[..k]] + Walk(c[k..]);
    assert Walk(c) == [c[..k]] + Walk(c[k..]);
    assert Walk(c)[1..] == Walk(c[k..]) == Walk(h)[1..];
    assert h[..k][1] == c[..k][1];
  }

  lemma {:induction false} WalkCovers(c: seq<byte>)
    requires Chain(c)
    ensures Concat(Walk(c)) == c
    decreases |c|
  {
    if c != [] {
      WalkCovers(c[c[0]..]);
      assert Walk(c)[1..] == Walk(c[c[0]..]);
      assert c == c[..c[0]] + c[c[0]..];
    }
  }

  // The walk of r finds the descriptors of c, the first of them rewritten, and then ds.
  ghost predicate WalksOn(c: seq<byte>, r: seq<byte>, ds: seq<seq<byte>>)
    requires c != [] && Chain(c) && |c| <= |r|
  {
    Chain(r) && Walk(r) == [r[..c[0]]] + Walk(c[c[0]..]) + ds
  }

  /** Only the first descriptor is touched exactly when its bLength covers the fields
      that are rewritten. */
  lemma ChainKeptIffHeaderCoversFields(c: seq<byte>, n: nat, m: nat)
    requires |c| >= CONFIG_SIZE && Chain(c) && |c| == TotalLength(c) && 0 < Times(n, m)
    requires TotalLength(c) + INTERFACE_SIZE * Times(n, m) <= 0xFFFF && c[4] as int + Times(n, m) <= 0xFF
    ensures WalksOn(c, Inject(c, n, m), Rows(m, n)) <==> c[0] > 4
  {
    var r := Inject(c, n, m);
    RewriteFields(c, Times(n, m));
    assert r[4] == Rewrite(c, Times(n, m))[4] != c[4];
    if c[0] > 4 {
      InjectKeepsChain(c, n, m);
    } else if WalksOn(c, r, Rows(m, n)) {
      RestUntouched(c, r, Rows(m, n), 4);
    }
  }

  lemma RestUntouched(c: seq<byte>, r: seq<byte>, ds: seq<seq<byte>>, k: nat)
    requires c != [] && Chain(c) && |c| <= |r| && WalksOn(c, r, ds) && c[0] as int <= k < |c|
    ensures r[k] == c[k]
  {
    WalkedBytes(r, r[..c[0]], c[c[0]..], ds);
    TailOf(r, r[..c[0]], c[c[0]..], Concat(ds));
  }

  lemma WalkedBytes(r: seq<byte>, first: seq<byte>, rest: seq<byte>, ds: seq<seq<byte>>)
    requires Chain(r) && Chain(rest) && Walk(r) == [first] + Walk(rest) + ds
    ensures r == first + rest + Concat(ds)
  {
    WalkCovers(r);
    WalkCovers(rest);
    ConcatThree(first, Walk(rest), ds);
  }

  lemma ConcatThree(d: seq<byte>, w: seq<seq<byte>>, ds: seq<seq<byte>>)
    ensures Concat([d] + w + ds) == d + Concat(w) + Concat(ds)
  {
    ConcatAppend([d] + w, ds);
    ConcatAppend([d], w);
    assert [d][1..] == [];
  }

  lemma TailOf(r: seq<byte>, x: seq<byte>, y: seq<byte>, z: seq<byte>)
    requires r == x + y + z
    ensures forall i :: |x| <= i < |x| + |y| ==> r[i] == y[i - |x|]
  {
  }

  // ------------------------------------------------------------------------
  // Headers shorter than the fields that are rewritten

  // A descriptor starts at place k, or the chain ends there.
  predicate StartsAt(c: seq<byte>, k: nat)
    requires Chain(c)
    decreases |c|
  {
    k == 0 || (c != [] && c[0] as int <= k && StartsAt(c[c[0]..], k - c[0]))
  }

  // r chains, and falls into the same descriptors as c up to the end of c.
  ghost predicate SameCuts(c: seq<byte>, r: seq<byte>)
    requires Chain(c)
  {
    Chain(r) && forall k :: 0 <= k <= |c| ==> (StartsAt(r, k) <==> StartsAt(c, k))
  }

  ghost predicate SameLengths(c: seq<byte>, r: seq<byte>)
    requires Chain(c) && |c| <= |r|
  {
    forall k :: 0 <= k < |c| && StartsAt(c, k) ==> r[k] == c[k]
  }

  lemma {:induction false} SameCutsIffSameLengths(c: seq<byte>, r: seq<byte>)
    requires Chain(c) && |c| <= |r| && Chain(r[|c|..])
    ensures SameCuts(c, r) <==> SameLengths(c, r)
    decreases |c|
  {
    if c == [] {
      assert r[0..] == r;
    } else if r[0] == c[0] {
      var n: nat := c[0];
      assert r[n..][|c[n..]|..] == r[|c|..];
      SameCutsIffSameLengths(c[n..], r[n..]);
      CutsBehind(c, r, n);
      LengthsBehind(c, r, n);
    } else {
      assert StartsAt(c, 0) && !SameLengths(c, r);
      if SameCuts(c, r) {
        FirstCut(c, r);
      }
    }
  }

  lemma FirstCut(c: seq<byte>, r: seq<byte>)
    requires Chain(c) && c != [] && |c| <= |r| && SameCuts(c, r)
    ensures r[0] == c[0]
  {
    assert StartsAt(c[c[0]..], 0) && StartsAt(r[r[0]..], 0);
    assert StartsAt(c, c[0]);
    assert StartsAt(r, c[0]);
    assert r[0] as int <= c[0] as int;
    assert StartsAt(r, r[0]);
    assert StartsAt(c, r[0]);
  }

  lemma CutsBehind(c: seq<byte>, r: seq<byte>, n: nat)
    requires Chain(c) && c != [] && |c| <= |r| && r[0] == c[0] == n
    ensures SameCuts(c, r) <==> SameCuts(c[n..], r[n..])
  {
    if SameCuts(c, r) {
      forall k | 0 <= k <= |c| - n
        ensures StartsAt(r[n..], k) <==> StartsAt(c[n..], k)
      {
        assert StartsAt(r, k + n) <==> StartsAt(c, k + n);
      }
    }
    if SameCuts(c[n..], r[n..]) {
      forall k | 0 <= k <= |c|
        ensures Chain(r) && (StartsAt(r, k) <==> StartsAt(c, k))
      {
        assert k >= n ==> (StartsAt(r[n..], k - n) <==> StartsAt(c[n..], k - n));
      }
    }
  }

  lemma LengthsBehind(c: seq<byte>, r: seq<byte>, n: nat)
    requires Chain(c) && c != [] && |c| <= |r| && r[0] == c[0] == n
    ensures SameLengths(c, r) <==> SameLengths(c[n..], r[n..])
  {
    if SameLengths(c, r) {
      forall k | 0 <= k < |c| - n && StartsAt(c[n..], k)
        ensures r[n..][k] == c[n..][k]
      {
        assert StartsAt(c, k + n);
      }
    }
    if SameLengths(c[n..], r[n..]) {
      forall k | 0 <= k < |c| && StartsAt(c, k)
        ensures r[k] == c[k]
      {
        assert k >= n ==> StartsAt(c[n..], k - n) && r[n..][k - n] == c[n..][k - n];
      }
    }
  }

  /** Whatever its header's bLength, the chain survives injection and falls into the same
      descriptors exactly when no rewritten byte that changes is itself a bLength. */
  lemma CutsKeptIffNoLengthRewritten(c: seq<byte>, n: nat, m: nat)
    requires |c| >= CONFIG_SIZE && Chain(c)
    ensures SameCuts(c, Inject(c, n, m)) <==>
      (forall k :: 2 <= k <= 4 && StartsAt(c, k) ==> Rewrite(c, Times(n, m))[k] == c[k])
  {
    var h, r := Rewrite(c, Times(n, m)), Inject(c, n, m);
    RowsChain(m, n);
    assert r[|c|..] == Concat(Rows(m, n));
    assert forall k :: 0 <= k < |c| ==> r[k] == h[k];
    SameCutsIffSameLengths(c, r);
  }

  // USBPNP_ValidateConfigDescriptor.
  predicate Validate(c: seq<byte>)
    requires |c| >= 4
  {
    && !(c[0] == 0 || c[0] > 9 || TotalLength(c) == 0 || TotalLength(c) < 9)
    && c[1] == 2
  }

  /** The validation accepts exactly configuration descriptors that give their own length as
      one to nine bytes and a total of nine or more. */
  lemma ValidatesExactly(c: seq<byte>)
    requires |c| >= 4
    ensures Validate(c) <==> c[1] == 2 && 1 <= c[0] <= 9 && 9 <= c[2] as int + 256 * c[3] as int
  {
  }

  /** The validation admits a header whose bLength does not cover the fields that are
      rewritten, and then injection can break the chain. */
  lemma ShortHeaderBreaksChain() returns (c: seq<byte>)
    ensures |c| >= CONFIG_SIZE && Validate(c) && Chain(c) && |c| == TotalLength(c) && c[0] <= 4
    ensures !Chain(Inject(c, 1, 1))
  {
    // bLength 4, so the next descriptor's bLength is the bNumInterfaces byte
    c := [4, 2, 9, 0, 5, 0, 0, 0, 0];
    assert c[4..] == [5, 0, 0, 0, 0] && c[4..][5..] == [];
    var r := Inject(c, 1, 1);
    assert Rows(1, 1) == Rows(1, 0) + Row(1, 0, 1);
    assert Row(1, 0, 1) == [Interface(0x80)];
    assert Concat([Interface(0x80)]) == Interface(0x80) + Concat([]);
    assert r == [4, 2, 18, 0, 6, 0, 0, 0, 0] + Interface(0x80);
    assert r[4..][6..] == r[10..] && r[10] == 4;
    assert r[10..][4..] == r[14..] && r[14] == 0xff;
    assert !Chain(r[14..]);
    assert !Chain(r[10..]);
    assert !Chain(r[4..]);
  }
}
