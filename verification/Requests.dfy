// Request builders (src/linux/qcom_usbnet/qmi.c): stores at fixed offsets of a
// zeroed buffer, which together must make a well-formed message.
module Requests {
  import opened Bytes
  import opened Qmi

  // The message, from behind the QMUX and SDU headers on; the SDU header of the
  // control service is a byte shorter.
  const SERVICE_AT := QMUX_SIZE + 3
  const CONTROL_AT := QMUX_SIZE + 2

  // The SDU headers: a zero byte and the transaction id.
  function ServiceSdu(transactionId: u16): seq<byte> { [0] + Le16(transactionId) }

  function ControlSdu(transactionId: byte): seq<byte> { [0, transactionId] }

  /** A complete message: its length field counts the bytes that follow, which are
      these fields, and GetTLV recovers every one of them. */
  ghost predicate IsBody(body: seq<byte>, id: u16, fields: seq<Field>) {
    && 4 <= |body|
    && body[0] as int + 256 * body[1] as int == id
    && body[2] as int + 256 * body[3] as int == |body| - 4
    && IsMessage(body, fields)
    && forall i :: 0 <= i < |fields| ==> First(Seen(fields), fields[i].tag) == i < |Seen(fields)|
  }

  /** Such a message behind the QMUX header and the SDU header of a service request. */
  ghost predicate IsServiceRequest(buffer: seq<byte>, transactionId: u16, id: u16, fields: seq<Field>) {
    && 9 <= |buffer|
    && buffer[6] == 0 && buffer[7] as int + 256 * buffer[8] as int == transactionId
    && IsBody(buffer[9..], id, fields)
  }

  /** And behind that of a control request, whose transaction id is one byte. */
  ghost predicate IsControlRequest(buffer: seq<byte>, transactionId: byte, id: u16, fields: seq<Field>) {
    8 <= |buffer| && buffer[6] == 0 && buffer[7] == transactionId && IsBody(buffer[8..], id, fields)
  }

  // Fields that hold one number, or two.
  predicate Is8(f: Field, tag: byte, n: byte) {
    f.tag == tag && |f.value| == 1 && f.value[0] == n
  }

  predicate Is16(f: Field, tag: byte, n: u16) {
    f.tag == tag && |f.value| == 2 && f.value[0] as int + 256 * f.value[1] as int == n
  }

  predicate IsNumber(v: seq<byte>, n: u32) {
    |v| == 4 && v[0] as int + 256 * v[1] as int + 0x1_0000 * v[2] as int + 0x100_0000 * v[3] as int == n
  }

  predicate Is32(f: Field, tag: byte, n: u32) {
    f.tag == tag && IsNumber(f.value, n)
  }

  predicate Is64(f: Field, tag: byte, n: u32, k: u32) {
    f.tag == tag && |f.value| == 8 && IsNumber(f.value[..4], n) && IsNumber(f.value[4..], k)
  }

  lemma Le16Is(n: u16)
    ensures |Le16(n)| == 2 && Le16(n)[0] as int + 256 * Le16(n)[1] as int == n
  {
  }

  lemma Le32Is(n: u32)
    ensures IsNumber(Le32(n), n)
  {
    var n1, n2, n3 := n / 256, n / 0x1_0000, n / 0x100_0000;
    assert n == 256 * n1 + n % 256;
    assert n1 == 256 * n2 + n1 % 256;
    assert n2 == 256 * n3 + n2 % 256;
  }

  function Field8Of(tag: byte, n: byte): (f: Field)
    ensures Is8(f, tag, n)
  {
    Field(tag, [n])
  }

  function Field16Of(tag: byte, n: u16): (f: Field)
    ensures Is16(f, tag, n)
  {
    Le16Is(n);
    Field(tag, Le16(n))
  }

  function Field32Of(tag: byte, n: u32): (f: Field)
    ensures Is32(f, tag, n)
  {
    Le32Is(n);
    Field(tag, Le32(n))
  }

  function Field64Of(tag: byte, n: u32, k: u32): (f: Field)
    ensures Is64(f, tag, n, k)
  {
    Le32Is(n);
    Le32Is(k);
    assert (Le32(n) + Le32(k))[..4] == Le32(n) && (Le32(n) + Le32(k))[4..] == Le32(k);
    Field(tag, Le32(n) + Le32(k))
  }

  /** Fields of distinct types, the last not empty, are all found where they are. */
  lemma DistinctFieldsFound(fields: seq<Field>)
    requires fields != [] ==> fields[|fields| - 1].value != []
    ensures (forall i :: 0 <= i < |fields| ==> First(Seen(fields), fields[i].tag) == i < |Seen(fields)|)
      <==> (forall i, j :: 0 <= i < j < |fields| ==> fields[i].tag != fields[j].tag)
  {
    assert Seen(fields) == fields;
    forall i | 0 <= i < |fields|
      ensures First(fields, fields[i].tag) <= i
    {
      assert fields[i].tag == fields[i].tag;
    }
    if i, j :| 0 <= i < j < |fields| && fields[i].tag == fields[j].tag {
      assert First(fields, fields[j].tag) <= i;
    }
  }

  // The first `at` bytes are done: what was there before, and the fields so far.
  ghost predicate Built(buffer: seq<byte>, at: nat, head: seq<byte>, fields: seq<Field>) {
    && at <= |buffer|
    && buffer[..at] == head + Encode(fields)
    && forall i :: at <= i < |buffer| ==> buffer[i] == 0
  }

  lemma BuiltOne(was: seq<byte>, buffer: seq<byte>, at: nat, head: seq<byte>, fields: seq<Field>, k: nat)
    requires k < |fields| && Built(was, at, head, fields[..k]) && at + |Tlv(fields[k])| <= |was|
    requires buffer == Put(was, at, Tlv(fields[k]))
    ensures Built(buffer, at + |Tlv(fields[k])|, head, fields[..k + 1])
  {
    EncodeAt(fields, k);
    Associate(head, Encode(fields[..k]), Tlv(fields[k]));
    assert buffer[..at + |Tlv(fields[k])|] == was[..at] + Tlv(fields[k]);
  }

  lemma BuiltRequest(buffer: seq<byte>, sdu: seq<byte>, head: seq<byte>, id: u16, size: u16, fields: seq<Field>)
    requires Built(buffer, |buffer|, head, fields) && |head| == QMUX_SIZE + |sdu| + MESSAGE_HEADER
    requires head[QMUX_SIZE..QMUX_SIZE + |sdu|] == sdu
    requires head[QMUX_SIZE + |sdu|..] == Le16(id) + Le16(size) && size == |buffer| - |head|
    requires |buffer| < 0x1_0000
    requires fields != [] ==> fields[|fields| - 1].value != []
    requires forall i, j :: 0 <= i < j < |fields| ==> fields[i].tag != fields[j].tag
    ensures IsBody(buffer[QMUX_SIZE + |sdu|..], id, fields)
    ensures buffer[QMUX_SIZE..QMUX_SIZE + |sdu|] == sdu
  {
    var at := QMUX_SIZE + |sdu|;
    var body := buffer[at..];
    DistinctFieldsFound(fields);
    assert buffer == head + Encode(fields);
    assert buffer[QMUX_SIZE..at] == head[QMUX_SIZE..at];
    assert body[MESSAGE_HEADER..] == Encode(fields);
    assert body[..MESSAGE_HEADER] == head[at..];
    FourBytes(body, Le16(id), Le16(size));
    Le16Is(id);
    Le16Is(size);
  }

  lemma FourBytes(body: seq<byte>, x: seq<byte>, y: seq<byte>)
    requires |x| == 2 && |y| == 2 && 4 <= |body| && body[..4] == x + y
    ensures body[0] == x[0] && body[1] == x[1] && body[2] == y[0] && body[3] == y[1]
  {
    assert forall k :: 0 <= k < 4 ==> body[k] == body[..4][k];
  }

  method Write8(buffer: array<byte>, at: nat, v: byte)
    requires at < buffer.Length
    modifies buffer
    ensures buffer[..] == Put(old(buffer[..]), at, [v])
  {
    buffer[at] := v;
  }

  method Write16(buffer: array<byte>, at: nat, v: u16)
    requires at + 2 <= buffer.Length
    modifies buffer
    ensures buffer[..] == Put(old(buffer[..]), at, Le16(v))
  {
    buffer[at], buffer[at + 1] := v % 256, v / 256;
  }

  method Write32(buffer: array<byte>, at: nat, v: u32)
    requires at + 4 <= buffer.Length
    modifies buffer
    ensures buffer[..] == Put(old(buffer[..]), at, Le32(v))
  {
    var b := Le32(v);
    buffer[at], buffer[at + 1], buffer[at + 2], buffer[at + 3] := b[0], b[1], b[2], b[3];
  }

  // The three stores of a one-byte field, and of longer ones.
  method Field8(buffer: array<byte>, at: nat, tag: byte, v: byte, ghost head: seq<byte>, ghost fields: seq<Field>, ghost k: nat)
    requires at + 4 <= buffer.Length && k < |fields| && Built(buffer[..], at, head, fields[..k])
    requires fields[k] == Field8Of(tag, v)
    modifies buffer
    ensures Built(buffer[..], at + 4, head, fields[..k + 1])
  {
    ghost var was := buffer[..];
    Write8(buffer, at, tag);
    Write16(buffer, at + 1, 1);
    Write8(buffer, at + 3, v);
    PutThree(was, at, [tag], Le16(1), [v]);
    BuiltOne(was, buffer[..], at, head, fields, k);
  }

  method Field16(buffer: array<byte>, at: nat, tag: byte, v: u16, ghost head: seq<byte>, ghost fields: seq<Field>, ghost k: nat)
    requires at + 5 <= buffer.Length && k < |fields| && Built(buffer[..], at, head, fields[..k])
    requires fields[k] == Field16Of(tag, v)
    modifies buffer
    ensures Built(buffer[..], at + 5, head, fields[..k + 1])
  {
    ghost var was := buffer[..];
    Write8(buffer, at, tag);
    Write16(buffer, at + 1, 2);
    Write16(buffer, at + 3, v);
    PutThree(was, at, [tag], Le16(2), Le16(v));
    BuiltOne(was, buffer[..], at, head, fields, k);
  }

  method Field32(buffer: array<byte>, at: nat, tag: byte, v: u32, ghost head: seq<byte>, ghost fields: seq<Field>, ghost k: nat)
    requires at + 7 <= buffer.Length && k < |fields| && Built(buffer[..], at, head, fields[..k])
    requires fields[k] == Field32Of(tag, v)
    modifies buffer
    ensures Built(buffer[..], at + 7, head, fields[..k + 1])
  {
    ghost var was := buffer[..];
    Write8(buffer, at, tag);
    Write16(buffer, at + 1, 4);
    Write32(buffer, at + 3, v);
    PutThree(was, at, [tag], Le16(4), Le32(v));
    BuiltOne(was, buffer[..], at, head, fields, k);
  }

  method Field64(buffer: array<byte>, at: nat, tag: byte, v: u32, w: u32, ghost head: seq<byte>, ghost fields: seq<Field>, ghost k: nat)
    requires at + 11 <= buffer.Length && k < |fields| && Built(buffer[..], at, head, fields[..k])
    requires fields[k] == Field64Of(tag, v, w)
    modifies buffer
    ensures Built(buffer[..], at + 11, head, fields[..k + 1])
  {
    ghost var was := buffer[..];
    Write8(buffer, at, tag);
    Write16(buffer, at + 1, 8);
    Write32(buffer, at + 3, v);
    Write32(buffer, at + 7, w);
    PutThree(was, at, [tag], Le16(8), Le32(v));
    PutAfterPut(was, at, [tag] + Le16(8) + Le32(v), Le32(w));
    Associate([tag] + Le16(8), Le32(v), Le32(w));
    BuiltOne(was, buffer[..], at, head, fields, k);
  }

  lemma PutThree(b: seq<byte>, at: nat, x: seq<byte>, y: seq<byte>, z: seq<byte>)
    requires at + |x| + |y| + |z| <= |b|
    ensures Put(Put(Put(b, at, x), at + |x|, y), at + |x| + |y|, z) == Put(b, at, x + y + z)
  {
    PutAfterPut(b, at, x, y);
    PutAfterPut(b, at, x + y, z);
  }

  // The headers of a request: the SDU header, the message id and the length field.
  method ServiceHeader(buffer: array<byte>, transactionId: u16, id: u16, size: u16) returns (ghost head: seq<byte>)
    requires QMUX_SIZE + 7 <= buffer.Length
    requires forall i :: 0 <= i < buffer.Length ==> buffer[i] == 0
    modifies buffer
    ensures Built(buffer[..], QMUX_SIZE + 7, head, [])
    ensures |head| == SERVICE_AT + MESSAGE_HEADER && head[SERVICE_AT..] == Le16(id) + Le16(size)
    ensures head[QMUX_SIZE..SERVICE_AT] == ServiceSdu(transactionId)
  {
    Write8(buffer, QMUX_SIZE, 0x00);
    Write16(buffer, QMUX_SIZE + 1, transactionId);
    Write16(buffer, QMUX_SIZE + 3, id);
    Write16(buffer, QMUX_SIZE + 5, size);
    head := buffer[..QMUX_SIZE + 7];
    assert head + Encode([]) == head;
  }

  // The fields of the data format request.
  function FormatFields(dlDatagrams: u32, dlSize: u32, interfaceNumber: u32, ulDatagrams: u32, ulSize: u32): seq<Field> {
    [Field8Of(0x10, 0), Field32Of(0x11, 2), Field32Of(0x12, 5), Field32Of(0x13, 5),
     Field32Of(0x15, dlDatagrams), Field32Of(0x16, dlSize), Field64Of(0x17, 2, interfaceNumber),
     Field32Of(0x1B, ulDatagrams), Field32Of(0x1C, ulSize)]
  }

  /** QMIWDASetDataFormatReq. */
  method SetDataFormatReq(buffer: array<byte>, transactionId: u16, dlDatagrams: u32, dlSize: u32,
                          interfaceNumber: u32, ulDatagrams: u32, ulSize: u32) returns (result: int, ghost fields: seq<Field>)
    requires forall i :: 0 <= i < buffer.Length ==> buffer[i] == 0
    modifies buffer
    ensures buffer.Length < QMUX_SIZE + 71 ==> result == -12 && buffer[..] == old(buffer[..])
    ensures buffer.Length >= QMUX_SIZE + 71 ==>
      && result == QMUX_SIZE + 71
      && IsServiceRequest(buffer[..result], transactionId, 0x20, fields)
      && |fields| == 9
      && Is8(fields[0], 0x10, 0) && Is32(fields[1], 0x11, 2) && Is32(fields[2], 0x12, 5) && Is32(fields[3], 0x13, 5)
      && Is32(fields[4], 0x15, dlDatagrams) && Is32(fields[5], 0x16, dlSize) && Is64(fields[6], 0x17, 2, interfaceNumber)
      && Is32(fields[7], 0x1B, ulDatagrams) && Is32(fields[8], 0x1C, ulSize)
  {
    if buffer.Length < QMUX_SIZE + 71 {
      return -ENOMEM, [];
    }
    ghost var head := ServiceHeader(buffer, transactionId, 0x0020, 0x0040);
    fields := FormatFields(dlDatagrams, dlSize, interfaceNumber, ulDatagrams, ulSize);
    FormatProtocols(buffer, head, fields);
    FormatDownlink(buffer, dlDatagrams, dlSize, interfaceNumber, head, fields);
    FormatUplink(buffer, ulDatagrams, ulSize, head, fields);
    assert fields[..9] == fields;
    result := QMUX_SIZE + 71;
    CompleteService(buffer[..], result, transactionId, head, 0x20, 0x40, fields);
  }

  method FormatProtocols(buffer: array<byte>, ghost head: seq<byte>, ghost fields: seq<Field>)
    requires QMUX_SIZE + 71 <= buffer.Length && Built(buffer[..], QMUX_SIZE + 7, head, []) && 4 <= |fields|
    requires fields[..4] == [Field8Of(0x10, 0), Field32Of(0x11, 2), Field32Of(0x12, 5), Field32Of(0x13, 5)]
    modifies buffer
    ensures Built(buffer[..], QMUX_SIZE + 32, head, fields[..4])
  {
    Field8(buffer, QMUX_SIZE + 7, 0x10, 0x00, head, fields, 0);
    Field32(buffer, QMUX_SIZE + 11, 0x11, 0x00000002, head, fields, 1);
    Field32(buffer, QMUX_SIZE + 18, 0x12, 0x00000005, head, fields, 2);
    Field32(buffer, QMUX_SIZE + 25, 0x13, 0x00000005, head, fields, 3);
  }

  method FormatDownlink(buffer: array<byte>, dlDatagrams: u32, dlSize: u32, interfaceNumber: u32,
                        ghost head: seq<byte>, ghost fields: seq<Field>)
    requires QMUX_SIZE + 71 <= buffer.Length && 7 <= |fields| && Built(buffer[..], QMUX_SIZE + 32, head, fields[..4])
    requires fields[4..7] ==
      [Field32Of(0x15, dlDatagrams), Field32Of(0x16, dlSize), Field64Of(0x17, 2, interfaceNumber)]
    modifies buffer
    ensures Built(buffer[..], QMUX_SIZE + 57, head, fields[..7])
  {
    Field32(buffer, QMUX_SIZE + 32, 0x15, dlDatagrams, head, fields, 4);
    Field32(buffer, QMUX_SIZE + 39, 0x16, dlSize, head, fields, 5);
    Field64(buffer, QMUX_SIZE + 46, 0x17, 0x00000002, interfaceNumber, head, fields, 6);
  }

  method FormatUplink(buffer: array<byte>, ulDatagrams: u32, ulSize: u32, ghost head: seq<byte>, ghost fields: seq<Field>)
    requires QMUX_SIZE + 71 <= buffer.Length && 9 <= |fields| && Built(buffer[..], QMUX_SIZE + 57, head, fields[..7])
    requires fields[7..9] == [Field32Of(0x1B, ulDatagrams), Field32Of(0x1C, ulSize)]
    modifies buffer
    ensures Built(buffer[..], QMUX_SIZE + 71, head, fields[..9])
  {
    Field32(buffer, QMUX_SIZE + 57, 0x1B, ulDatagrams, head, fields, 7);
    Field32(buffer, QMUX_SIZE + 64, 0x1C, ulSize, head, fields, 8);
  }

  // The finished part of a longer buffer.
  lemma CompleteService(buffer: seq<byte>, end: nat, t: u16, head: seq<byte>, id: u16, size: u16, fields: seq<Field>)
    requires Built(buffer, end, head, fields) && |head| == SERVICE_AT + MESSAGE_HEADER
    requires head[QMUX_SIZE..SERVICE_AT] == ServiceSdu(t)
    requires head[SERVICE_AT..] == Le16(id) + Le16(size) && size == end - |head| && end < 0x1_0000
    requires fields != [] ==> fields[|fields| - 1].value != []
    requires forall i, j :: 0 <= i < j < |fields| ==> fields[i].tag != fields[j].tag
    ensures IsServiceRequest(buffer[..end], t, id, fields)
  {
    var done := buffer[..end];
    assert done[..end] == done;
    BuiltRequest(done, ServiceSdu(t), head, id, size, fields);
    assert done[6] == done[6..9][0] && done[7] == done[6..9][1] && done[8] == done[6..9][2];
    Le16Is(t);
    assert ServiceSdu(t)[1] == Le16(t)[0] && ServiceSdu(t)[2] == Le16(t)[1];
  }

  lemma CompleteControl(buffer: seq<byte>, end: nat, t: byte, head: seq<byte>, id: u16, size: u16, fields: seq<Field>)
    requires Built(buffer, end, head, fields) && |head| == CONTROL_AT + MESSAGE_HEADER
    requires head[QMUX_SIZE..CONTROL_AT] == ControlSdu(t)
    requires head[CONTROL_AT..] == Le16(id) + Le16(size) && size == end - |head| && end < 0x1_0000
    requires fields != [] ==> fields[|fields| - 1].value != []
    requires forall i, j :: 0 <= i < j < |fields| ==> fields[i].tag != fields[j].tag
    ensures IsControlRequest(buffer[..end], t, id, fields)
  {
    var done := buffer[..end];
    assert done[..end] == done;
    BuiltRequest(done, ControlSdu(t), head, id, size, fields);
    assert done[6] == done[6..8][0] && done[7] == done[6..8][1];
  }

  /** QMIWDSSetEventReportReq. */
  method SetEventReportReq(buffer: array<byte>, transactionId: u16) returns (result: int, ghost fields: seq<Field>)
    requires forall i :: 0 <= i < buffer.Length ==> buffer[i] == 0
    modifies buffer
    ensures buffer.Length < QMUX_SIZE + 15 ==> result == -12 && buffer[..] == old(buffer[..])
    ensures buffer.Length >= QMUX_SIZE + 15 ==>
      && result == QMUX_SIZE + 15
      && IsServiceRequest(buffer[..result], transactionId, 0x1, fields) && |fields| == 1
      && fields[0].tag == 0x11 && |fields[0].value| == 5 && fields[0].value[0] == 1 && IsNumber(fields[0].value[1..], 0xff)
  {
    if buffer.Length < QMUX_SIZE + 15 {
      return -ENOMEM, [];
    }
    ghost var head := ServiceHeader(buffer, transactionId, 0x0001, 0x0008);
    ghost var was := buffer[..];
    Write8(buffer, QMUX_SIZE + 7, 0x11);
    Write16(buffer, QMUX_SIZE + 8, 0x0005);
    Write8(buffer, QMUX_SIZE + 10, 0x01);
    PutThree(was, QMUX_SIZE + 7, [0x11], Le16(5), [1]);
    Write32(buffer, QMUX_SIZE + 11, 0x000000ff);
    PutAfterPut(was, QMUX_SIZE + 7, [0x11] + Le16(5) + [1], Le32(0xff));
    Associate([0x11] + Le16(5), [1], Le32(0xff));
    fields := [Field(0x11, [1] + Le32(0xff))];
    BuiltOne(was, buffer[..], QMUX_SIZE + 7, head, fields, 0);
    assert fields[..1] == fields;
    result := QMUX_SIZE + 15;
    CompleteService(buffer[..], result, transactionId, head, 0x1, 0x8, fields);
  }

  /** QMIWDSBindMuxPortReq. Only the first byte of the last field is stored: that it reads
      as a 4-byte number rests on the buffer having been zeroed. */
  method BindMuxPortReq(buffer: array<byte>, transactionId: u16, interfaceNumber: u32, muxId: byte) returns (result: int, ghost fields: seq<Field>)
    requires QMUX_SIZE + 29 <= buffer.Length
    requires forall i :: 0 <= i < buffer.Length ==> buffer[i] == 0
    modifies buffer
    ensures result == QMUX_SIZE + 29
    ensures IsServiceRequest(buffer[..result], transactionId, 0xA2, fields) && |fields| == 3
      && Is64(fields[0], 0x10, 2, interfaceNumber) && Is8(fields[1], 0x11, muxId) && Is32(fields[2], 0x13, 1)
  {
    ghost var head := ServiceHeader(buffer, transactionId, 0x00a2, 0x0016);
    fields := [Field64Of(0x10, 2, interfaceNumber), Field8Of(0x11, muxId), Field32Of(0x13, 1)];
    Field64(buffer, QMUX_SIZE + 7, 0x10, 0x00000002, interfaceNumber, head, fields, 0);
    Field8(buffer, QMUX_SIZE + 18, 0x11, muxId, head, fields, 1);
    ClientType(buffer, head, fields);
    assert fields[..3] == fields;
    result := QMUX_SIZE + 29;
    CompleteService(buffer[..], result, transactionId, head, 0xA2, 0x16, fields);
  }

  method ClientType(buffer: array<byte>, ghost head: seq<byte>, ghost fields: seq<Field>)
    requires QMUX_SIZE + 29 <= buffer.Length && 3 <= |fields| && fields[2] == Field32Of(0x13, 1)
    requires Built(buffer[..], QMUX_SIZE + 22, head, fields[..2])
    modifies buffer
    ensures Built(buffer[..], QMUX_SIZE + 29, head, fields[..3])
  {
    ghost var was := buffer[..];
    Write8(buffer, QMUX_SIZE + 22, 0x13);
    Write16(buffer, QMUX_SIZE + 23, 0x0004);
    Write8(buffer, QMUX_SIZE + 25, 0x00000001);
    PutThree(was, QMUX_SIZE + 22, [0x13], Le16(4), [1]);
    ZerosFollow(was, QMUX_SIZE + 22, [0x13] + Le16(4) + [1], Tlv(fields[2]));
    BuiltOne(was, buffer[..], QMUX_SIZE + 22, head, fields, 2);
  }

  // Storing the start of a block that goes on with zeros stores the block.
  lemma ZerosFollow(b: seq<byte>, at: nat, start: seq<byte>, block: seq<byte>)
    requires at + |block| <= |b| && start <= block
    requires forall i :: at <= i < |b| ==> b[i] == 0
    requires forall i :: |start| <= i < |block| ==> block[i] == 0
    ensures Put(b, at, start) == Put(b, at, block)
  {
  }

  method ControlHeader(buffer: array<byte>, transactionId: byte, id: u16, size: u16) returns (ghost head: seq<byte>)
    requires QMUX_SIZE + 6 <= buffer.Length
    requires forall i :: 0 <= i < buffer.Length ==> buffer[i] == 0
    modifies buffer
    ensures Built(buffer[..], QMUX_SIZE + 6, head, [])
    ensures |head| == CONTROL_AT + MESSAGE_HEADER && head[CONTROL_AT..] == Le16(id) + Le16(size)
    ensures head[QMUX_SIZE..CONTROL_AT] == ControlSdu(transactionId)
  {
    Write8(buffer, QMUX_SIZE, 0x00);
    Write8(buffer, QMUX_SIZE + 1, transactionId);
    Write16(buffer, QMUX_SIZE + 2, id);
    Write16(buffer, QMUX_SIZE + 4, size);
    head := buffer[..QMUX_SIZE + 6];
    assert head + Encode([]) == head;
  }

  /** QMICTLReleaseClientIDReq. */
  method ReleaseClientIdReq(buffer: array<byte>, transactionId: byte, clientId: u16) returns (result: int, ghost fields: seq<Field>)
    requires forall i :: 0 <= i < buffer.Length ==> buffer[i] == 0
    modifies buffer
    ensures buffer.Length < QMUX_SIZE + 11 ==> result == -12 && buffer[..] == old(buffer[..])
    ensures buffer.Length >= QMUX_SIZE + 11 ==>
      result == QMUX_SIZE + 11 && IsControlRequest(buffer[..result], transactionId, 0x23, fields) && |fields| == 1
      && Is16(fields[0], 0x01, clientId)
  {
    if buffer.Length < QMUX_SIZE + 11 {
      return -ENOMEM, [];
    }
    ghost var head := ControlHeader(buffer, transactionId, 0x23, 0x5);
    fields := [Field16Of(0x01, clientId)];
    Field16(buffer, QMUX_SIZE + 6, 0x01, clientId, head, fields, 0);
    assert fields[..1] == fields;
    result := QMUX_SIZE + 11;
    CompleteControl(buffer[..], result, transactionId, head, 0x23, 0x5, fields);
  }

  /** QMICTLGetClientIDReq. */
  method GetClientIdReq(buffer: array<byte>, transactionId: byte, serviceType: byte) returns (result: int, ghost fields: seq<Field>)
    requires forall i :: 0 <= i < buffer.Length ==> buffer[i] == 0
    modifies buffer
    ensures buffer.Length < QMUX_SIZE + 10 ==> result == -12 && buffer[..] == old(buffer[..])
    ensures buffer.Length >= QMUX_SIZE + 10 ==>
      result == QMUX_SIZE + 10 && IsControlRequest(buffer[..result], transactionId, 0x22, fields) && |fields| == 1
      && Is8(fields[0], 0x01, serviceType)
  {
    if buffer.Length < QMUX_SIZE + 10 {
      return -ENOMEM, [];
    }
    ghost var head := ControlHeader(buffer, transactionId, 0x22, 0x4);
    fields := [Field8Of(0x01, serviceType)];
    Field8(buffer, QMUX_SIZE + 6, 0x01, serviceType, head, fields, 0);
    assert fields[..1] == fields;
    result := QMUX_SIZE + 10;
    CompleteControl(buffer[..], result, transactionId, head, 0x22, 0x4, fields);
  }

  /** QMICTLReadyReq. */
  method ReadyReq(buffer: array<byte>, transactionId: byte) returns (result: int, ghost fields: seq<Field>)
    requires forall i :: 0 <= i < buffer.Length ==> buffer[i] == 0
    modifies buffer
    ensures buffer.Length < QMUX_SIZE + 10 ==> result == -12 && buffer[..] == old(buffer[..])
    ensures buffer.Length >= QMUX_SIZE + 10 ==>
      result == QMUX_SIZE + 10 && IsControlRequest(buffer[..result], transactionId, 0x21, fields) && |fields| == 1
      && Is8(fields[0], 0x01, 0xff)
  {
    if buffer.Length < QMUX_SIZE + 10 {
      return -ENOMEM, [];
    }
    ghost var head := ControlHeader(buffer, transactionId, 0x21, 0x4);
    fields := [Field8Of(0x01, 0xff)];
    Field8(buffer, QMUX_SIZE + 6, 0x01, 0xff, head, fields, 0);
    assert fields[..1] == fields;
    result := QMUX_SIZE + 10;
    CompleteControl(buffer[..], result, transactionId, head, 0x21, 0x4, fields);
  }

  /** QMIWDASetDataFormatReqSettings. */
  method SetDataFormatReqSettings(buffer: array<byte>, transactionId: u16) returns (result: int, ghost fields: seq<Field>)
    requires forall i :: 0 <= i < buffer.Length ==> buffer[i] == 0
    modifies buffer
    ensures buffer.Length < QMUX_SIZE + 11 ==> result == -12 && buffer[..] == old(buffer[..])
    ensures buffer.Length >= QMUX_SIZE + 11 ==>
      result == QMUX_SIZE + 11 && IsServiceRequest(buffer[..result], transactionId, 0x2B, fields) && |fields| == 1
      && Is8(fields[0], 0x10, 0)
  {
    if buffer.Length < QMUX_SIZE + 11 {
      return -ENOMEM, [];
    }
    ghost var head := ServiceHeader(buffer, transactionId, 0x2B, 0x4);
    fields := [Field8Of(0x10, 0)];
    Field8(buffer, QMUX_SIZE + 7, 0x10, 0x00, head, fields, 0);
    assert fields[..1] == fields;
    result := QMUX_SIZE + 11;
    CompleteService(buffer[..], result, transactionId, head, 0x2B, 0x4, fields);
  }

  /** QMIWDSGetPKGSRVCStatusReq. */
  method GetPkgSrvcStatusReq(buffer: array<byte>, transactionId: u16) returns (result: int, ghost fields: seq<Field>)
    requires forall i :: 0 <= i < buffer.Length ==> buffer[i] == 0
    modifies buffer
    ensures buffer.Length < QMUX_SIZE + 7 ==> result == -12 && buffer[..] == old(buffer[..])
    ensures buffer.Length >= QMUX_SIZE + 7 ==>
      result == QMUX_SIZE + 7 && IsServiceRequest(buffer[..result], transactionId, 0x22, fields) && fields == []
  {
    if buffer.Length < QMUX_SIZE + 7 {
      return -ENOMEM, [];
    }
    ghost var head := ServiceHeader(buffer, transactionId, 0x22, 0x0);
    result := QMUX_SIZE + 7;
    fields := [];
    CompleteService(buffer[..], result, transactionId, head, 0x22, 0x0, fields);
  }

  /** QMIDMSGetMEIDReq. */
  method GetMeidReq(buffer: array<byte>, transactionId: u16) returns (result: int, ghost fields: seq<Field>)
    requires forall i :: 0 <= i < buffer.Length ==> buffer[i] == 0
    modifies buffer
    ensures buffer.Length < QMUX_SIZE + 7 ==> result == -12 && buffer[..] == old(buffer[..])
    ensures buffer.Length >= QMUX_SIZE + 7 ==>
      result == QMUX_SIZE + 7 && IsServiceRequest(buffer[..result], transactionId, 0x25, fields) && fields == []
  {
    if buffer.Length < QMUX_SIZE + 7 {
      return -ENOMEM, [];
    }
    ghost var head := ServiceHeader(buffer, transactionId, 0x25, 0x0);
    result := QMUX_SIZE + 7;
    fields := [];
    CompleteService(buffer[..], result, transactionId, head, 0x25, 0x0, fields);
  }

  // The next four do not look at the size of the buffer.

  /** QMIWDSStartNetworkReq. */
  method StartNetworkReq(buffer: array<byte>, transactionId: u16, profileId: byte) returns (result: int, ghost fields: seq<Field>)
    requires QMUX_SIZE + 11 <= buffer.Length
    requires forall i :: 0 <= i < buffer.Length ==> buffer[i] == 0
    modifies buffer
    ensures result == QMUX_SIZE + 11 && IsServiceRequest(buffer[..result], transactionId, 0x20, fields) && |fields| == 1
      && Is8(fields[0], 0x31, profileId)
  {
    ghost var head := ServiceHeader(buffer, transactionId, 0x20, 0x4);
    fields := [Field8Of(0x31, profileId)];
    Field8(buffer, QMUX_SIZE + 7, 0x31, profileId, head, fields, 0);
    assert fields[..1] == fields;
    result := QMUX_SIZE + 11;
    CompleteService(buffer[..], result, transactionId, head, 0x20, 0x4, fields);
  }

  /** QMIWDSStopNetworkReq. */
  method StopNetworkReq(buffer: array<byte>, transactionId: u16, connectId: u32) returns (result: int, ghost fields: seq<Field>)
    requires QMUX_SIZE + 14 <= buffer.Length
    requires forall i :: 0 <= i < buffer.Length ==> buffer[i] == 0
    modifies buffer
    ensures result == QMUX_SIZE + 14 && IsServiceRequest(buffer[..result], transactionId, 0x21, fields) && |fields| == 1
      && Is32(fields[0], 0x01, connectId)
  {
    ghost var head := ServiceHeader(buffer, transactionId, 0x21, 0x7);
    fields := [Field32Of(0x01, connectId)];
    Field32(buffer, QMUX_SIZE + 7, 0x01, connectId, head, fields, 0);
    assert fields[..1] == fields;
    result := QMUX_SIZE + 14;
    CompleteService(buffer[..], result, transactionId, head, 0x21, 0x7, fields);
  }

  /** QMIWDSGetRuntimeSettingsReq. */
  method GetRuntimeSettingsReq(buffer: array<byte>, transactionId: u16) returns (result: int, ghost fields: seq<Field>)
    requires QMUX_SIZE + 14 <= buffer.Length
    requires forall i :: 0 <= i < buffer.Length ==> buffer[i] == 0
    modifies buffer
    ensures result == QMUX_SIZE + 14 && IsServiceRequest(buffer[..result], transactionId, 0x2D, fields) && |fields| == 1
      && Is32(fields[0], 0x10, 0x2310)
  {
    ghost var head := ServiceHeader(buffer, transactionId, 0x2D, 0x7);
    fields := [Field32Of(0x10, 0x2310)];
    Field32(buffer, QMUX_SIZE + 7, 0x10, 0x2310, head, fields, 0);
    assert fields[..1] == fields;
    result := QMUX_SIZE + 14;
    CompleteService(buffer[..], result, transactionId, head, 0x2D, 0x7, fields);
  }

  /** QMIWDSSetIPFamilyPrefReq. */
  method SetIpFamilyPrefReq(buffer: array<byte>, transactionId: u16, ipType: byte) returns (result: int, ghost fields: seq<Field>)
    requires QMUX_SIZE + 11 <= buffer.Length
    requires forall i :: 0 <= i < buffer.Length ==> buffer[i] == 0
    modifies buffer
    ensures result == QMUX_SIZE + 11 && IsServiceRequest(buffer[..result], transactionId, 0x4D, fields) && |fields| == 1
      && Is8(fields[0], 0x01, ipType)
  {
    ghost var head := ServiceHeader(buffer, transactionId, 0x4D, 0x4);
    fields := [Field8Of(0x01, ipType)];
    Field8(buffer, QMUX_SIZE + 7, 0x01, ipType, head, fields, 0);
    assert fields[..1] == fields;
    result := QMUX_SIZE + 11;
    CompleteService(buffer[..], result, transactionId, head, 0x4D, 0x4, fields);
  }
}
