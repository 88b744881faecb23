// Bytes and the one generic helper type that every module shares.
module Bytes {
  type byte = b: int | 0 <= b < 256 witness 0

  datatype Option<+T> = None | Some(value: T)

  // The concatenation of a sequence of byte strings, oldest first.
  function Concat(blocks: seq<seq<byte>>): seq<byte> {
    if blocks == [] then [] else blocks[0] + Concat(blocks[1..])
  }

  // A buffer with a block written over it at some place.
  function Put(buf: seq<byte>, at: nat, block: seq<byte>): (r: seq<byte>)
    requires at + |block| <= |buf|
    ensures |r| == |buf|
    ensures forall i :: 0 <= i < |buf| ==> r[i] == if at <= i < at + |block| then block[i - at] else buf[i]
  {
    buf[..at] + block + buf[at + |block|..]
  }

  // memmove(buffer + at, block, |block|).
  method Memmove(buffer: array<byte>, at: nat, block: seq<byte>)
    requires at + |block| <= buffer.Length
    modifies buffer
    ensures buffer[..] == Put(old(buffer[..]), at, block)
  {
    for i := 0 to |block|
      invariant forall j :: 0 <= j < buffer.Length ==>
        buffer[j] == if at <= j < at + i then block[j - at] else old(buffer[j])
    {
      buffer[at + i] := block[i];
    }
  }

  // Two blocks written one behind the other are one block.
  lemma PutAfterPut(b: seq<byte>, at: nat, x: seq<byte>, y: seq<byte>)
    requires at + |x| + |y| <= |b|
    ensures Put(Put(b, at, x), at + |x|, y) == Put(b, at, x + y)
  {
  }

  lemma Associate<T>(a: seq<T>, b: seq<T>, c: seq<T>)
    ensures (a + b) + c == a + (b + c)
  {
  }

  lemma {:induction false} ConcatAppend(a: seq<seq<byte>>, b: seq<seq<byte>>)
    ensures Concat(a + b) == Concat(a) + Concat(b)
  {
    if a == [] {
      assert a + b == b;
    } else {
      ConcatAppend(a[1..], b);
      assert (a + b)[1..] == a[1..] + b;
      assert (a + b)[0] == a[0];
    }
  }

  lemma ConcatOne(a: seq<seq<byte>>, x: seq<byte>)
    ensures Concat(a + [x]) == Concat(a) + x
  {
    ConcatAppend(a, [x]);
    assert Concat([x]) == x + Concat([]);
  }
}
