/**
  PUBLISH and the acknowledgements: src/libmqtt/MQTTSerializePublish.c and
  src/libmqtt/MQTTDeserializePublish.c.
*/
module MqttPublish {
  import opened Common
  import opened MqttPacket

  // A message as the deserializer returns it; a packet id comes with QoS 1 and above only.
  datatype Message = Message(dup: bool, qos: nat, retained: bool, id: Option<nat>, topic: Bytes, payload: Payload)

  // The payload, or the negative length returned with a packet that ends inside its packet id
  datatype Payload = Content(bytes: Bytes) | Negative(length: int)

  // ---- Writing ----

  // MQTTSerialize_publishLength
  function PublishLength(qos: int, topic: MqttString, payloadlen: nat): nat {
    2 + topic.StrLen() + payloadlen + if qos > 0 then 2 else 0
  }

  function PublishBody(qos: int, id: nat, topic: Bytes, payload: Bytes): (b: Bytes)
    ensures |b| == 2 + |topic| + |payload| + if qos > 0 then 2 else 0
  {
    Prefixed(topic) + (if qos > 0 then Int16(id) else []) + payload
  }

  // A whole packet: header, remaining length, body
  function Frame(header: Byte, body: Bytes): (p: Bytes)
    ensures |p| == PacketSize(|body|)
  {
    [header] + EncodeLength(|body|) + body
  }

  // MQTTSerialize_publish. The topic has one length, and the packet one that the protocol has.
  method SerializePublish(buf: array<Byte>, buflen: nat, dup: Byte, qos: int, retained: Byte, id: nat,
                          topic: MqttString, payload: Bytes) returns (rc: int)
    requires buflen <= buf.Length
    requires topic.Consistent() && PublishLength(qos, topic, |payload|) < LENGTH_LIMIT
    modifies buf
    ensures PacketLen(PublishLength(qos, topic, |payload|)) > buflen ==>
      rc == BUFFER_TOO_SHORT && buf[..] == old(buf[..])
    ensures PacketLen(PublishLength(qos, topic, |payload|)) <= buflen ==>
      var packet := Frame(Header(PUBLISH, dup, qos, retained), PublishBody(qos, id, topic.Written(), payload));
      rc == |packet| <= buflen && Filled(buf[..], old(buf[..]), packet)
  {
    hide Filled, EncodeLength, Prefixed, Int16, Header, Frame, PublishBody;
    var remLen := PublishLength(qos, topic, |payload|);
    if PacketLen(remLen) > buflen {
      return BUFFER_TOO_SHORT;
    }
    ghost var was, body := buf[..], PublishBody(qos, id, topic.Written(), payload);
    StrLenAgrees(topic);
    PredictorExact(remLen);
    assert |body| == remLen;
    var h := Header(PUBLISH, dup, qos, retained);
    var ptr := WriteHead(buf, h, remLen, was);
    FrameUnfold(h, body);
    rc := WritePublish(buf, ptr, qos, id, topic, payload, was, [h] + EncodeLength(remLen));
  }

  // The fixed header, from the start of the buffer
  method WriteHead(buf: array<Byte>, h: Byte, remLen: nat, ghost was: Bytes) returns (ptr: nat)
    requires buf[..] == was && 1 + |EncodeLength(remLen)| <= buf.Length
    modifies buf
    ensures ptr == 1 + |EncodeLength(remLen)| && Filled(buf[..], was, [h] + EncodeLength(remLen))
  {
    hide EncodeLength;
    assert [] + [h] == [h];
    ptr := WriteChar(buf, 0, h, was, []);
    ptr := WriteLength(buf, ptr, remLen, was, [h]);
  }

  // The topic, the packet id if there is one, and the payload
  method WritePublish(buf: array<Byte>, p: nat, qos: int, id: nat, topic: MqttString, payload: Bytes,
                      ghost was: Bytes, ghost head: Bytes) returns (ptr: nat)
    requires Filled(buf[..], was, head) && p == |head|
    requires p + |PublishBody(qos, id, topic.Written(), payload)| <= buf.Length
    modifies buf
    ensures ptr == p + |PublishBody(qos, id, topic.Written(), payload)|
    ensures Filled(buf[..], was, head + PublishBody(qos, id, topic.Written(), payload))
  {
    hide *;
    ghost var t, idBytes := Prefixed(topic.Written()), if qos > 0 then Int16(id) else [];
    PublishBodyUnfold(qos, id, topic.Written(), payload);
    Rebracket(head, t, idBytes, payload);
    ptr := WriteMqttString(buf, p, topic, was, head);
    if qos > 0 {
      ptr := WriteInt(buf, ptr, id, was, head + t);
    } else {
      assert head + t + idBytes == head + t;
    }
    ptr := Put(buf, ptr, payload, was, head + t + idBytes);
  }

  lemma FrameUnfold(h: Byte, body: Bytes)
    ensures Frame(h, body) == [h] + EncodeLength(|body|) + body
  {}

  lemma Rebracket(a: Bytes, b: Bytes, c: Bytes, d: Bytes)
    ensures a + b + c + d == a + (b + c + d)
  {}

  // A PUBLISH of QoS 1 and id 7 with topic "a" and payload 9, byte by byte
  lemma PublishBytes()
    ensures Frame(Header(PUBLISH, 0, 1, 0), PublishBody(1, 7, [0x61], [9])) == [0x32, 6, 0, 1, 0x61, 0, 7, 9]
  {
    assert PublishBody(1, 7, [0x61], [9]) == [0, 1, 0x61, 0, 7, 9] && EncodeLength(6) == [6];
  }

  function AckPacket(msgType: Byte, dup: int, id: nat): (p: Bytes)
    requires msgType < 16
    ensures |p| == 4
  {
    [Header(msgType, dup, if msgType == PUBREL then 1 else 0, 0), 2] + Int16(id)
  }

  // MQTTSerialize_ack
  method SerializeAck(buf: array<Byte>, buflen: nat, msgType: Byte, dup: Byte, id: nat) returns (rc: int)
    requires buflen <= buf.Length && msgType < 16
    modifies buf
    ensures buflen < 4 ==> rc == BUFFER_TOO_SHORT && buf[..] == old(buf[..])
    ensures buflen >= 4 ==> rc == 4 && Filled(buf[..], old(buf[..]), AckPacket(msgType, dup, id))
  {
    if buflen < 4 {
      return BUFFER_TOO_SHORT;
    }
    ghost var was := buf[..];
    var h := Header(msgType, dup, if msgType == PUBREL then 1 else 0, 0);
    assert EncodeLength(2) == [2] && Filled(was, was, []) && [] + [h] == [h];
    hide Filled, EncodeLength, Header, Int16;
    var ptr := WriteChar(buf, 0, h, was, []);
    ptr := WriteLength(buf, ptr, 2, was, [h]);
    ptr := WriteInt(buf, ptr, id, was, [h] + [2]);
    assert [h] + [2] == [h, 2];
    rc := ptr;
  }

  // ---- Reading ----

  // How a deserializer ends. Malformed carries the C return code. Overrun: the C code reads
  // outside the buffer, or hands out a string or payload that reaches outside it; Overflow: it
  // writes past the end of the output arrays.
  datatype Parsed<+T> = Ok(value: T) | WrongType | Malformed(rc: nat) | Overrun | Overflow

  // The frame of a packet: where the fields start and, as the length field says, end, and the C
  // return code of the length field. The end is not compared with that of the buffer.
  datatype Framing = Framing(at: nat, end: nat, rc: nat) | Unframed

  function FrameOf(buf: Bytes): (f: Framing)
    ensures f.Framing? ==> 1 <= f.at <= f.end && f.at <= |buf| + 1
  {
    if buf == [] then Unframed else
    var d := DecodeLength(buf[1..], 4);
    var at := 1 + d.ReturnCode();
    if d.status.Starved? then Unframed else Framing(at, at + d.value, d.ReturnCode())
  }

  // The steps every deserializer starts with: the remaining length behind the header, and
  // enddata from it
  method ReadFrame(buf: Bytes) returns (f: Framing)
    ensures f == FrameOf(buf)
  {
    hide DecodeLength;
    if |buf| == 0 {
      return Unframed;
    }
    var d := DecodeBuf(buf, 1);
    var rc := d.ReturnCode();
    if d.status.Starved? {
      return Unframed;
    }
    f := Framing(1 + rc, 1 + rc + d.value, rc);
  }

  // readMQTTLenString in a frame that may end behind the buffer: the string, or that it does not
  // fit the frame, or that its length or the string itself is outside the buffer
  datatype Field = Whole(value: Bytes) | Cut | Outside

  function ReadField(buf: Bytes, at: nat, end: nat): (f: Field)
    ensures f.Whole? ==> at + 2 + |f.value| <= end && at + 2 + |f.value| <= |buf|
  {
    if end < at + 2 then Cut
    else if at + 2 > |buf| then Outside
    else
      var p := at + 2 + ReadInt(buf, at);
      if p > end then Cut else if p > |buf| then Outside else Whole(buf[at + 2..p])
  }

  // Inside the buffer it is the string.
  lemma FieldIsString(buf: Bytes, at: nat, end: nat)
    requires at <= end <= |buf|
    ensures ReadField(buf, at, end) ==
      match ReadString(buf, at, end)
      case None => Cut
      case Some(x) => Whole(x)
  {
    hide ReadInt;
  }

  lemma FrameRoundTrip(header: Byte, body: Bytes, suffix: Bytes)
    requires |body| < LENGTH_LIMIT
    ensures var n := |EncodeLength(|body|)|;
      && FrameOf(Frame(header, body) + suffix) == Framing(1 + n, 1 + n + |body|, n)
      && (Frame(header, body) + suffix)[0] == header
      && Frame(header, body) + suffix == ([header] + EncodeLength(|body|)) + body + suffix
  {
    var s := Frame(header, body) + suffix;
    LengthRoundTrip(|body|, body + suffix);
    hide EncodeLength, DecodeLength;
    assert s[1..] == EncodeLength(|body|) + (body + suffix);
  }

  // MQTTDeserialize_publish. It also accepts a packet that ends inside its packet id, and then
  // returns a negative payload length.
  function ParsePublish(buf: Bytes): Parsed<Message> {
    if buf == [] then Overrun
    else if TypeOf(buf[0]) != PUBLISH then WrongType else
    match FrameOf(buf)
    case Unframed => Overrun
    case Framing(at, end, rc) =>
      match ReadField(buf, at, end)
      case Cut => Malformed(rc)
      case Outside => Overrun
      case Whole(topic) =>
        var qos := QosOf(buf[0]);
        var p := at + 2 + |topic|;
        if qos > 0 && p + 2 > |buf| then Overrun else
        var start := if qos > 0 then p + 2 else p;
        if start <= end && end > |buf| then Overrun else
        Ok(Message(DupOf(buf[0]) == 1, qos, RetainOf(buf[0]) == 1,
          if qos > 0 then Some(ReadInt(buf, p)) else None, topic,
          if start <= end then Content(buf[start..end]) else Negative(end - start)))
  }

  method DeserializePublish(buf: Bytes) returns (r: Parsed<Message>)
    ensures r == ParsePublish(buf)
  {
    hide FrameOf, ReadInt, ReadField;
    if |buf| == 0 {
      return Overrun;
    }
    var header := buf[0];
    if TypeOf(header) != PUBLISH {
      return WrongType;
    }
    var dup, qos, retained := DupOf(header), QosOf(header), RetainOf(header);
    var frame := ReadFrame(buf);
    if frame.Unframed? {
      return Overrun;
    }
    var curdata, enddata, rc := frame.at, frame.end, frame.rc;
    var topic := ReadField(buf, curdata, enddata);
    FieldBounds(buf, curdata, enddata);
    if topic.Cut? {
      return Malformed(rc);
    }
    if topic.Outside? {
      return Overrun;
    }
    curdata := curdata + 2 + |topic.value|;
    var id := None;
    if qos > 0 {
      if curdata + 2 > |buf| {
        return Overrun;
      }
      id := Some(ReadInt(buf, curdata));
      curdata := curdata + 2;
    }
    var payloadlen := enddata - curdata;
    if payloadlen >= 0 && enddata > |buf| {
      return Overrun;
    }
    var payload := if payloadlen >= 0 then Content(buf[curdata..curdata + payloadlen]) else Negative(payloadlen);
    r := Ok(Message(dup == 1, qos, retained == 1, id, topic.value, payload));
  }

  lemma FieldBounds(buf: Bytes, at: nat, end: nat)
    ensures var f := ReadField(buf, at, end); f.Whole? ==> at + 2 + |f.value| <= end && at + 2 + |f.value| <= |buf|
  {}

  // A published message is read back as it was, whatever follows it in the buffer.
  lemma PublishRoundTrip(dup: Byte, qos: nat, retained: Byte, id: nat, topic: Bytes, payload: Bytes, suffix: Bytes)
    requires qos < 4 && id < 0x1_0000 && |topic| < 0x1_0000
    requires |PublishBody(qos, id, topic, payload)| < LENGTH_LIMIT
    ensures ParsePublish(Frame(Header(PUBLISH, dup, qos, retained), PublishBody(qos, id, topic, payload)) + suffix)
      == Ok(Message(dup % 2 == 1, qos, retained % 2 == 1, if qos > 0 then Some(id) else None, topic, Content(payload)))
  {
    hide Header, TypeOf, DupOf, QosOf, RetainOf, Frame, PublishBody, ParsePublish;
    HeaderFields(PUBLISH, dup, qos, retained);
    BodyRoundTrip(Header(PUBLISH, dup, qos, retained), qos, id, topic, payload, suffix);
  }

  lemma BodyRoundTrip(h: Byte, qos: nat, id: nat, topic: Bytes, payload: Bytes, suffix: Bytes)
    requires TypeOf(h) == PUBLISH && QosOf(h) == qos && id < 0x1_0000 && |topic| < 0x1_0000
    requires |PublishBody(qos, id, topic, payload)| < LENGTH_LIMIT
    ensures ParsePublish(Frame(h, PublishBody(qos, id, topic, payload)) + suffix)
      == Ok(Message(DupOf(h) == 1, qos, RetainOf(h) == 1, if qos > 0 then Some(id) else None, topic, Content(payload)))
  {
    hide *;
    var body := PublishBody(qos, id, topic, payload);
    var head := [h] + EncodeLength(|body|);
    FrameRoundTrip(h, body, suffix);
    FieldsRoundTrip(head, qos, id, topic, payload, suffix);
    ParsedFields(Frame(h, body) + suffix, |head|, |head| + |body|, topic, payload);
  }

  lemma ParsedFields(s: Bytes, at: nat, end: nat, topic: Bytes, payload: Bytes)
    requires s != [] && TypeOf(s[0]) == PUBLISH && FrameOf(s).Framing? && FrameOf(s).at == at && FrameOf(s).end == end
    requires end <= |s| && ReadString(s, at, end) == Some(topic)
    requires var start := at + 2 + |topic| + if QosOf(s[0]) > 0 then 2 else 0;
      start <= end && s[start..end] == payload
    ensures ParsePublish(s) == Ok(Message(DupOf(s[0]) == 1, QosOf(s[0]), RetainOf(s[0]) == 1,
      if QosOf(s[0]) > 0 then Some(ReadInt(s, at + 2 + |topic|)) else None, topic, Content(payload)))
  {
    hide ReadInt, ReadField, FrameOf;
    FieldIsString(s, at, end);
  }

  lemma FieldsRoundTrip(head: Bytes, qos: nat, id: nat, topic: Bytes, payload: Bytes, suffix: Bytes)
    requires id < 0x1_0000 && |topic| < 0x1_0000
    ensures var body := PublishBody(qos, id, topic, payload);
      var s, end := head + body + suffix, |head| + |body|;
      var p := |head| + 2 + |topic|;
      var start := if qos > 0 then p + 2 else p;
      && ReadString(s, |head|, end) == Some(topic)
      && (qos > 0 ==> ReadInt(s, p) == id)
      && start <= end && s[start..end] == payload
  {
    hide *;
    var x, i := Prefixed(topic), if qos > 0 then Int16(id) else [];
    var body := PublishBody(qos, id, topic, payload);
    PublishBodyUnfold(qos, id, topic, payload);
    Brackets(head, x, i, payload, suffix);
    ReadPrefixed(head, topic, i + payload + suffix, |head| + |body|);
    if qos > 0 {
      IntRoundTrip(id, head + x, payload + suffix);
    }
  }

  lemma PublishBodyUnfold(qos: int, id: nat, topic: Bytes, payload: Bytes)
    ensures PublishBody(qos, id, topic, payload) == Prefixed(topic) + (if qos > 0 then Int16(id) else []) + payload
    ensures |Prefixed(topic)| == 2 + |topic| && |Int16(id)| == 2
  {}

  lemma Brackets(a: Bytes, b: Bytes, c: Bytes, d: Bytes, e: Bytes)
    ensures a + (b + c + d) + e == a + b + (c + d + e)
    ensures a + (b + c + d) + e == (a + b) + c + (d + e)
    ensures |a| + |b| + |c| + |d| == |a + (b + c + d)|
    ensures (a + (b + c + d) + e)[|a| + |b| + |c|..|a + (b + c + d)|] == d
  {}

  // The C return code of a parse that stays inside the buffer: 1 is meant to be success
  function PublishCode(r: Parsed<Message>): int
    requires !r.Overrun? && !r.Overflow?
  {
    match r
    case Ok(_) => 1
    case WrongType => 0
    case Malformed(rc) => rc
  }

  // A rejected PUBLISH is nevertheless reported with the success code exactly when its
  // remaining-length field is one byte long.
  lemma RejectedWithSuccessCode(buf: Bytes)
    requires ParsePublish(buf).Malformed?
    ensures PublishCode(ParsePublish(buf)) == 1 <==> buf[1] < 128
  {
    UsedSome(buf[1..], 4);
  }

  // The remaining length cuts off the string at index at, which is seen without a look outside
  // the buffer.
  predicate CutString(buf: Bytes, at: nat, size: nat) {
    size < 2 || (at + 2 <= |buf| && 2 + ReadInt(buf, at) > size)
  }

  // Which buffers are rejected, and which of them with the success code, byte by byte
  lemma RejectedExact(buf: Bytes)
    ensures ParsePublish(buf).Malformed? <==>
      && buf != [] && TypeOf(buf[0]) == PUBLISH
      && var d := DecodeLength(buf[1..], 4);
      && !d.status.Starved? && CutString(buf, 1 + d.ReturnCode(), d.value)
    ensures ParsePublish(buf) == Malformed(1) <==>
      && |buf| >= 2 && TypeOf(buf[0]) == PUBLISH && buf[1] < 128 && CutString(buf, 2, buf[1])
  {
    hide ReadInt;
    if ParsePublish(buf).Malformed? {
      RejectedWithSuccessCode(buf);
    }
  }

  // A PUBLISH without a body, one whose topic is longer than the packet, and one of which only
  // the start is there
  lemma RejectedInputs(rest: Bytes)
    ensures ParsePublish([0x30, 0x00]) == ParsePublish([0x30, 0x02, 0x00, 0x05] + rest) == Malformed(1)
    ensures ParsePublish([0x30, 0x05, 0xFF, 0xFF] + rest) == Malformed(1)
    ensures PublishCode(ParsePublish([0x30, 0x00])) == 1
  {
    hide ReadInt, ParsePublish;
    var long, part := [0x30, 0x02, 0x00, 0x05] + rest, [0x30, 0x05, 0xFF, 0xFF] + rest;
    RejectedExact([0x30, 0x00]);
    RejectedExact(long);
    RejectedExact(part);
    IntOf(long, 0, 5);
    IntOf(part, 0xFF, 0xFF);
  }

  lemma IntOf(s: Bytes, high: Byte, low: Byte)
    requires |s| >= 4 && s[2] == high && s[3] == low
    ensures ReadInt(s, 2) == 256 * (high as int) + low as int
  {}

  // Which packets are accepted with a negative payload length, byte by byte: the QoS is above 0
  // and fewer than two bytes are left behind the topic. The packet id is then read from what
  // lies behind the packet.
  lemma NegativeExact(buf: Bytes)
    ensures ParsePublish(buf).Ok? && ParsePublish(buf).value.payload.Negative? <==>
      && buf != [] && TypeOf(buf[0]) == PUBLISH && QosOf(buf[0]) > 0
      && var d := DecodeLength(buf[1..], 4);
      && var at := 1 + d.ReturnCode();
      && !d.status.Starved? && d.value >= 2 && at + 2 <= |buf|
      && at + 4 + ReadInt(buf, at) <= |buf| && 0 <= d.value - 2 - ReadInt(buf, at) < 2
    ensures ParsePublish(buf).Ok? && ParsePublish(buf).value.payload.Negative? ==>
      var d := DecodeLength(buf[1..], 4);
      ParsePublish(buf).value.payload.length == d.value - 4 - |ParsePublish(buf).value.topic|
  {
    hide ReadInt, DecodeLength;
  }

  // A PUBLISH of QoS 1 with topic "a" and no packet id, in a buffer that goes on behind it
  lemma NegativeInput(rest: Bytes)
    ensures ParsePublish([0x32, 0x03, 0x00, 0x01, 0x61, 0x00, 0x07] + rest)
      == Ok(Message(false, 1, false, Some(7), [0x61], Negative(-2)))
  {
    var buf := [0x32, 0x03, 0x00, 0x01, 0x61, 0x00, 0x07] + rest;
    assert buf[4..5] == [0x61] && DecodeLength(buf[1..], 4) == Decoded(Complete, 3, 1);
    assert ReadInt(buf, 2) == 1 && ReadInt(buf, 5) == 7;
  }

  function ParseAck(buf: Bytes): Parsed<(Byte, bool, nat)> {
    if buf == [] then Overrun else
    match FrameOf(buf)
    case Unframed => Overrun
    case Framing(at, end, rc) =>
      if end - at < 2 then Malformed(rc)
      else if at + 2 > |buf| then Overrun
      else Ok((TypeOf(buf[0]), DupOf(buf[0]) == 1, ReadInt(buf, at)))
  }

  // The same flaw: a rejected acknowledgement carries the success code 1 exactly then.
  lemma AckRejectedWithSuccessCode(buf: Bytes)
    requires ParseAck(buf).Malformed?
    ensures ParseAck(buf).rc == 1 <==> buf[1] < 128
  {
    UsedSome(buf[1..], 4);
  }

  lemma AckRejectedExact(buf: Bytes)
    ensures ParseAck(buf).Malformed? <==>
      && buf != []
      && var d := DecodeLength(buf[1..], 4);
      && !d.status.Starved? && d.value < 2
    ensures ParseAck(buf) == Malformed(1) <==> |buf| >= 2 && buf[1] < 2
  {
    hide ReadInt;
    if ParseAck(buf).Malformed? {
      AckRejectedWithSuccessCode(buf);
    }
  }

  // A PUBACK without a packet id, and one that ends inside it
  lemma AckRejectedInput(rest: Bytes)
    ensures ParseAck([0x40, 0x00] + rest) == ParseAck([0x40, 0x01] + rest) == Malformed(1)
  {
    AckRejectedExact([0x40, 0x00] + rest);
    AckRejectedExact([0x40, 0x01] + rest);
  }

  // MQTTDeserialize_ack: packet type, dup and packet id
  method DeserializeAck(buf: Bytes) returns (r: Parsed<(Byte, bool, nat)>)
    ensures r == ParseAck(buf)
  {
    hide FrameOf;
    if |buf| == 0 {
      return Overrun;
    }
    var header := buf[0];
    var frame := ReadFrame(buf);
    if frame.Unframed? {
      return Overrun;
    }
    var curdata, enddata, rc := frame.at, frame.end, frame.rc;
    if enddata - curdata < 2 {
      return Malformed(rc);
    }
    if curdata + 2 > |buf| {
      return Overrun;
    }
    r := Ok((TypeOf(header), DupOf(header) == 1, ReadInt(buf, curdata)));
  }

  // The QoS bits of PUBREL are 01, and those of the others 00.
  lemma AckRoundTrip(msgType: Byte, dup: Byte, id: nat, suffix: Bytes)
    requires msgType < 16 && id < 0x1_0000
    ensures ParseAck(AckPacket(msgType, dup, id) + suffix) == Ok((msgType, dup % 2 == 1, id))
    ensures var h := AckPacket(msgType, dup, id)[0];
      QosOf(h) == (if msgType == PUBREL then 1 else 0) && RetainOf(h) == 0
  {}
}
