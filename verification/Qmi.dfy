// QMI messages (src/linux/qcom_usbnet/qmi.c): the QMUX header, and the
// type-length-value fields of a message body.
module Qmi {
  import opened Bytes

  const ENOMEM := 12
  const EINVAL := 22
  const ENOMSG := 42

  type u16 = n: int | 0 <= n < 0x1_0000

  function Le16(n: u16): seq<byte> { [n % 256, n / 256] }

  function U16(lo: byte, hi: byte): u16 { lo as int + 256 * hi as int }

  type u32 = n: int | 0 <= n < 0x1_0000_0000

  function Le32(n: u32): seq<byte> {
    [n % 256, n / 256 % 256, n / 0x1_0000 % 256, n / 0x100_0000]
  }

  // ------------------------------------------------------------------------
  // The QMUX header

  const QMUX_SIZE: nat := 6

  function Qmux(clientId: u16, size: u16, flag: byte): seq<byte>
    requires 0 < size
  {
    [1] + Le16(size - 1) + [flag, clientId % 256, clientId / 256]
  }

  /** FillQMUX. */
  method FillQmux(clientId: u16, buffer: array<byte>) returns (result: int)
    requires buffer.Length < 0x1_0000
    modifies buffer
    ensures result == if buffer.Length < 6 then -12 else 0
    ensures result == 0 ==>
      && buffer[0] == 1 && buffer[1] as int + 256 * buffer[2] as int == buffer.Length - 1 && buffer[3] == 0
      && buffer[4] as int + 256 * buffer[5] as int == clientId
      && buffer[6..] == old(buffer[6..])
    ensures result == 0 ==>
      buffer[..] == Put(old(buffer[..]), 0, Qmux(clientId, buffer.Length, 0))
    ensures result != 0 ==> buffer[..] == old(buffer[..])
  {
    if buffer.Length < QMUX_SIZE {
      return -ENOMEM;
    }
    buffer[0] := 1;
    buffer[1], buffer[2] := (buffer.Length - 1) % 256, (buffer.Length - 1) / 256;
    buffer[3] := 0;
    buffer[4] := clientId % 256;
    buffer[5] := clientId / 256;
    result := 0;
  }

  datatype Parsed = Client(id: u16) | Failed(errno: int)

  /** ParseQMUX. */
  function ParseQmux(buffer: seq<byte>): Parsed {
    if |buffer| < 12 then Failed(ENOMEM)
    else if buffer[0] != 1 || U16(buffer[1], buffer[2]) != |buffer| - 1 || buffer[3] != 0x80 then Failed(EINVAL)
    else Client(buffer[5] as int * 256 + buffer[4] as int)
  }

  /** The parser accepts exactly the messages that start with a header the filler
      writes, once the response flag is set and at least twelve bytes long,
      and recovers the client for which it was written. Shorter ones and others are told apart. */
  lemma ParseInvertsFill(message: seq<byte>, clientId: u16)
    requires |message| < 0x1_0000
    ensures ParseQmux(message) == Client(clientId) <==>
      && 12 <= |message|
      && message[0] == 1 && message[1] as int + 256 * message[2] as int == |message| - 1 && message[3] == 0x80
      && message[4] as int + 256 * message[5] as int == clientId
    ensures 12 <= |message| ==>
      (ParseQmux(message) == Client(clientId) <==> message[..QMUX_SIZE] == Qmux(clientId, |message|, 0x80))
    ensures ParseQmux(message) == Failed(12) <==> |message| < 12
    ensures ParseQmux(message).Failed? && 12 <= |message| ==> ParseQmux(message) == Failed(22)
  {
    if 12 <= |message| {
      var h := message[..QMUX_SIZE];
      assert forall i :: 0 <= i < QMUX_SIZE ==> h[i] == message[i];
      if ParseQmux(message) == Client(clientId) {
        assert h == Qmux(clientId, |message|, 0x80);
      }
    }
  }

  // ------------------------------------------------------------------------
  // Fields

  // A value whose length the 16-bit length field can hold.
  type Value = v: seq<byte> | |v| < 0x1_0000

  datatype Field = Field(tag: byte, value: Value)

  function Tlv(f: Field): seq<byte> {
    [f.tag] + Le16(|f.value|) + f.value
  }

  // Fields one after the other, as they follow the 4-byte message header.
  function Encode(fields: seq<Field>): seq<byte> {
    Concat(seq(|fields|, i requires 0 <= i < |fields| => Tlv(fields[i])))
  }

  function First(fields: seq<Field>, tag: byte): (k: nat)
    ensures k <= |fields|
    ensures k < |fields| ==> fields[k].tag == tag
    ensures forall i :: 0 <= i < k ==> fields[i].tag != tag
  {
    if fields == [] || fields[0].tag == tag then 0 else 1 + First(fields[1..], tag)
  }

  // The loop of GetTLV stops short of a last field that has no value.
  function Seen(fields: seq<Field>): seq<Field> {
    if fields != [] && fields[|fields| - 1].value == [] then fields[..|fields| - 1] else fields
  }

  /** The field that is looked up is the first one of its type, exactly unless that
      is an empty field at the end of the message. */
  lemma SeenUnlessEmptyLast(fields: seq<Field>, tag: byte)
    ensures (First(Seen(fields), tag) < |Seen(fields)| <==> First(fields, tag) < |fields|)
      <==> !(First(fields, tag) == |fields| - 1 && fields[|fields| - 1].value == [])
    ensures First(Seen(fields), tag) < |Seen(fields)| ==> First(Seen(fields), tag) == First(fields, tag)
  {
    var k, j := First(fields, tag), First(Seen(fields), tag);
    if j < |Seen(fields)| {
      assert fields[j].tag == tag;
      assert !(k < j) && !(j < k);
    }
  }

  const MESSAGE_HEADER: nat := 4

  ghost predicate IsMessage(message: seq<byte>, fields: seq<Field>) {
    && |message| < 0x1_0000
    && MESSAGE_HEADER <= |message|
    && message[MESSAGE_HEADER..] == Encode(fields)
  }

  // Field k of a body, with what is before it and behind it.
  lemma EncodeAt(fields: seq<Field>, k: nat)
    requires k < |fields|
    ensures Encode(fields[..k + 1]) == Encode(fields[..k]) + Tlv(fields[k])
    ensures Encode(fields) == Encode(fields[..k + 1]) + Encode(fields[k + 1..])
    ensures |fields| > k + 1 ==> 3 <= |Encode(fields[k + 1..])|
  {
    EncodeAppend(fields[..k], [fields[k]]);
    assert fields[..k + 1] == fields[..k] + [fields[k]];
    EncodeAppend(fields[..k + 1], fields[k + 1..]);
    assert fields == fields[..k + 1] + fields[k + 1..];
    EncodeOne(fields[k]);
    if |fields| > k + 1 {
      EncodeAppend([fields[k + 1]], fields[k + 2..]);
      EncodeOne(fields[k + 1]);
      assert fields[k + 1..] == [fields[k + 1]] + fields[k + 2..];
    }
  }

  lemma EncodeOne(f: Field)
    ensures Encode([f]) == Tlv(f)
  {
    var one := seq(|[f]|, i requires 0 <= i < |[f]| => Tlv([f][i]));
    assert one == [Tlv(f)] && one[1..] == [];
    assert Concat(one) == one[0] + Concat(one[1..]);
  }

  lemma EncodeAppend(a: seq<Field>, b: seq<Field>)
    ensures Encode(a + b) == Encode(a) + Encode(b)
  {
    var x := seq(|a|, i requires 0 <= i < |a| => Tlv(a[i]));
    var y := seq(|b|, i requires 0 <= i < |b| => Tlv(b[i]));
    ConcatAppend(x, y);
    assert x + y == seq(|a + b|, i requires 0 <= i < |a + b| => Tlv((a + b)[i]));
  }

  lemma Window(s: seq<byte>, a: seq<byte>, f: Field, b: seq<byte>)
    requires s == a + Tlv(f) + b
    ensures s[|a|] == f.tag && U16(s[|a| + 1], s[|a| + 2]) == |f.value|
    ensures s[|a| + 3..|a| + 3 + |f.value|] == f.value
  {
    var tlv := Tlv(f);
    assert forall i :: 0 <= i < |tlv| ==> s[|a| + i] == tlv[i];
  }

  // The loop of GetTLV, before field k.
  lemma AtField(message: seq<byte>, fields: seq<Field>, k: nat, pos: nat)
    requires IsMessage(message, fields) && k <= |fields|
    requires pos == MESSAGE_HEADER + |Encode(fields[..k])|
    ensures pos + 3 < |message| <==> k < |Seen(fields)|
    ensures k < |fields| ==>
      && pos + 3 + |fields[k].value| <= |message|
      && message[pos] == fields[k].tag && U16(message[pos + 1], message[pos + 2]) == |fields[k].value|
      && message[pos + 3..pos + 3 + |fields[k].value|] == fields[k].value
      && pos + 3 + |fields[k].value| == MESSAGE_HEADER + |Encode(fields[..k + 1])|
  {
    var header := message[..MESSAGE_HEADER];
    assert message == header + Encode(fields);
    if k < |fields| {
      EncodeAt(fields, k);
      Associate(header, Encode(fields[..k + 1]), Encode(fields[k + 1..]));
      Associate(header, Encode(fields[..k]), Tlv(fields[k]));
      Window(message, header + Encode(fields[..k]), fields[k], Encode(fields[k + 1..]));
    }
    assert k == |fields| ==> fields[..k] == fields;
    assert k == |fields| - 1 ==> Encode(fields[k + 1..]) == [];
  }

  /** GetTLV, on a message made of fields: it finds the first seen field of the type and
      writes its value to the buffer, if it fits. Indices are 16 bits wide. */
  method GetTlv(message: seq<byte>, tag: byte, out: array<byte>, ghost fields: seq<Field>) returns (result: int)
    requires IsMessage(message, fields)
    modifies out
    ensures var k := First(Seen(fields), tag);
      if k == |Seen(fields)| then result == -42 && out[..] == old(out[..])
      else
        var value := fields[k].value;
        if out.Length < |value| then result == -12 && out[..] == old(out[..])
        else result == |value| && out[..] == value + old(out[|value|..])
  {
    var pos: u16 := 4;
    ghost var k := 0;
    while pos + 3 < |message|
      invariant TlvLoop(message, fields, tag, k, pos)
      invariant out[..] == old(out[..])
      decreases |fields| - k
    {
      TlvTurn(message, fields, tag, k, pos);
      var tlvSize: u16 := U16(message[pos + 1], message[pos + 2]);
      if message[pos] == tag {
        if out.Length < tlvSize {
          return -ENOMEM;
        }
        ghost var value := fields[k].value;
        assert message[pos + 3..pos + 3 + tlvSize] == value;
        CopyOut(message, pos + 3, out, tlvSize);
        return tlvSize;
      }
      pos := (pos + (tlvSize + 3)) % 0x1_0000;
      k := k + 1;
    }
    TlvTurn(message, fields, tag, k, pos);
    result := -ENOMSG;
  }

  // The loop is at field k, and has not met the type.
  ghost predicate TlvLoop(message: seq<byte>, fields: seq<Field>, tag: byte, k: nat, pos: nat) {
    && k <= |Seen(fields)|
    && k <= First(Seen(fields), tag)
    && pos == MESSAGE_HEADER + |Encode(fields[..k])| <= |message|
  }

  lemma TlvTurn(message: seq<byte>, fields: seq<Field>, tag: byte, k: nat, pos: nat)
    requires IsMessage(message, fields) && TlvLoop(message, fields, tag, k, pos)
    ensures pos + 3 >= |message| ==> First(Seen(fields), tag) == |Seen(fields)|
    ensures pos + 3 < |message| ==>
      && k < |fields|
      && var size := |fields[k].value|;
      && U16(message[pos + 1], message[pos + 2]) == size && pos + 3 + size <= |message|
      && (message[pos] == tag ==> k == First(Seen(fields), tag) < |Seen(fields)|)
      && message[pos + 3..pos + 3 + size] == fields[k].value
      && (message[pos] != tag ==> TlvLoop(message, fields, tag, k + 1, pos + 3 + size))
  {
    AtField(message, fields, k, pos);
    assert k < |Seen(fields)| ==> Seen(fields)[k] == fields[k];
  }

  method CopyOut(message: seq<byte>, from: nat, out: array<byte>, size: nat)
    requires from + size <= |message| && size <= out.Length
    modifies out
    ensures out[..] == message[from..from + size] + old(out[size..])
  {
    for i := 0 to size
      invariant out[..i] == message[from..from + i]
      invariant out[i..] == old(out[i..])
    {
      out[i] := message[from + i];
      assert out[..i + 1] == out[..i] + [message[from + i]];
      assert out[i + 1..] == old(out[i..])[1..];
    }
    assert out[..] == out[..size] + out[size..];
  }

  /** ValidQMIMessage: zero exactly when the first result field is four bytes long and
      reports success; otherwise the error it reports, or -ENOMSG without such a field. */
  method ValidQmiMessage(message: seq<byte>, ghost fields: seq<Field>) returns (result: int)
    requires IsMessage(message, fields)
    ensures var k := First(Seen(fields), 2);
      if k < |Seen(fields)| && |fields[k].value| == 4 then
        var v := fields[k].value;
        result == if v[0] == 0 && v[1] == 0 then 0 else v[2] as int + 256 * v[3] as int
      else result == -42
  {
    var mandTlv := new byte[4](_ => 0);
    var got := GetTlv(message, 2, mandTlv, fields);
    if got == 4 {
      ghost var v := fields[First(Seen(fields), 2)].value;
      assert mandTlv[..] == v;
      assert forall i :: 0 <= i < 4 ==> mandTlv[i] == mandTlv[..][i];
      if U16(mandTlv[0], mandTlv[1]) != 0 {
        return U16(mandTlv[2], mandTlv[3]);
      }
      return 0;
    }
    result := -ENOMSG;
  }
}
