/** The client object of src/libmqtt/MQTTClient.c. */
module MqttClient {
  import opened Common
  import opened MqttPacket
  import opened MqttPublish
  import opened TopicFilter
  import opened MqttTrace

  class Client {
    const buf: array<Byte>
    // what lies behind the buffer in memory
    const beyond: nat -> Byte
    var slots: seq<Slot>
    var fallback: Option<nat>
    var keepAliveInterval: nat
    var pingOutstanding: bool
    var nextPacketId: nat
    ghost var trace: seq<Event>
    // what the network has taken
    var wire: Bytes

    // MQTTClientInit
    constructor (sendbuf: array<Byte>, beyond: nat -> Byte, keepAliveInterval: nat)
      ensures buf == sendbuf && Valid() && trace == [] && wire == [] && !pingOutstanding && nextPacketId == 1
      ensures (forall i :: 0 <= i < |slots| ==> slots[i] == Slot(None, None)) && fallback == None
    {
      buf := sendbuf;
      this.beyond := beyond;
      slots := seq(MAX_MESSAGE_HANDLERS, i => Slot(None, None));
      fallback := None;
      this.keepAliveInterval := keepAliveInterval;
      pingOutstanding := false;
      nextPacketId := 1;
      trace := [];
      wire := [];
    }

    function Cfg(): Config
      reads this
    {
      Config(slots, fallback, buf.Length)
    }

    ghost predicate Valid()
      reads this
    {
      && |slots| == MAX_MESSAGE_HANDLERS && nextPacketId <= MAX_PACKET_ID
      && Carried(trace, wire) && pingOutstanding == OutstandingAfter(trace)
    }

    // getNextPacketId
    method GetNextPacketId() returns (id: nat)
      requires Valid()
      modifies `nextPacketId
      ensures Valid() && id == nextPacketId == NextId(old(nextPacketId)) && 1 <= id <= MAX_PACKET_ID
    {
      nextPacketId := if nextPacketId == MAX_PACKET_ID then 1 else nextPacketId + 1;
      id := nextPacketId;
    }

    function Memory(at: nat): Byte
      reads buf
    {
      if at < buf.Length then buf[at] else beyond(at)
    }

    // The wire has grown from start by so many bytes of memory.
    ghost predicate Copied(start: Bytes, taken: nat)
      reads this`wire, buf
    {
      && |wire| == |start| + taken && wire[..|start|] == start
      && forall i :: |start| <= i < |wire| ==> wire[i] == Memory(i - |start|)
    }

    // sendPacket, for a packet that lies at the start of the send buffer
    method SendPacket(length: nat, ghost packet: Bytes, link: Link) returns (rc: int)
      requires Carried(trace, wire)
      requires length == |packet| <= buf.Length && buf[..length] == packet
      modifies `trace, `wire
      ensures trace == old(trace) + Sending(Cfg(), packet, link) && Carried(trace, wire)
      ensures rc == if link.up && TakenBy(link.writes, |packet|, 0) == |packet| then SUCCESS else FAILURE
      ensures rc == SUCCESS <==> link.up && AddsUp(link.writes, |packet|)
      ensures rc == SUCCESS ==> wire == old(wire) + packet
      // the bytes taken are those in memory from the start of the buffer on
      ensures Copied(old(wire), if link.up then TakenBy(link.writes, |packet|, 0) else 0)
    {
      hide AddsUp;
      SentWholeExact(link.writes, length, 0);
      if !link.up {
        assert trace + [] == trace;
        return FAILURE;
      }
      var sent: nat, writes := 0, link.writes;
      ghost var start := wire;
      while sent < length && |writes| > 0 && writes[0].Took?
        invariant TakenBy(link.writes, length, 0) == TakenBy(writes, length, sent)
        invariant Grown(start, wire, packet, sent) && trace == old(trace)
        invariant Copied(start, sent)
        decreases |writes|
      {
        NetworkWrite(sent, writes[0].n, start, packet);
        sent := sent + writes[0].n;
        writes := writes[1..];
      }
      trace := trace + [Sent(packet, sent)];
      CarriedSent(old(trace), start, packet, sent, wire);
      if sent == length {
        GrownWhole(start, wire, packet);
        rc := SUCCESS;
      } else {
        rc := FAILURE;
      }
    }

    // What a call of mqttwrite that takes n bytes from index sent of the buffer puts on the wire
    method NetworkWrite(sent: nat, n: nat, ghost start: Bytes, ghost packet: Bytes)
      requires Grown(start, wire, packet, sent) && |packet| <= buf.Length && buf[..|packet|] == packet
      requires Copied(start, sent)
      modifies `wire
      ensures Grown(start, wire, packet, sent + n) && Copied(start, sent + n)
    {
      for i := 0 to n
        invariant Grown(start, wire, packet, sent + i) && Copied(start, sent + i)
      {
        assert sent + i < |packet| ==> buf[sent + i] == buf[..|packet|][sent + i];
        wire := wire + [Memory(sent + i)];
      }
    }

    // deliverMessage
    method DeliverMessage(m: Message) returns (rc: int)
      requires Valid()
      modifies `trace
      ensures Valid() && trace == old(trace) + Calls(Targets(slots, fallback, m.topic), m)
      ensures rc == SUCCESS <==> Targets(slots, fallback, m.topic) != []
    {
      hide Matches, Carried, OutstandingAfter, Calls;
      rc := FAILURE;
      ghost var called: seq<nat> := [];
      NoCalls(trace, m);
      for i := 0 to MAX_MESSAGE_HANDLERS
        invariant Matching(slots, m.topic) == called + Matching(slots[i..], m.topic)
        invariant trace == old(trace) + Calls(called, m)
        invariant Carried(trace, wire) && pingOutstanding == OutstandingAfter(trace)
        invariant rc == if called == [] then FAILURE else SUCCESS
      {
        MatchingStep(slots, m.topic, i, called);
        if slots[i].filter.Some? && (m.topic == slots[i].filter.value || Matches(slots[i].filter.value, m.topic)) {
          if slots[i].fp.Some? {
            OneMoreCall(old(trace), called, slots[i].fp.value, m, wire);
            trace := trace + [Called(slots[i].fp.value, m)];
            called := called + [slots[i].fp.value];
            rc := SUCCESS;
          }
        }
      }
      assert called + [] == called;
      if rc == FAILURE && fallback.Some? {
        OneMoreCall(old(trace), called, fallback.value, m, wire);
        assert called + [fallback.value] == [fallback.value];
        trace := trace + [Called(fallback.value, m)];
        rc := SUCCESS;
      }
    }

    // keepalive; expired is what the ping timer says
    method KeepAlive(expired: bool, link: Link) returns (rc: int)
      requires Valid()
      modifies `trace, `wire, `pingOutstanding, buf
      ensures Valid()
      ensures trace == old(trace) + StepEvents(Cfg(), keepAliveInterval, old(pingOutstanding), Keeping(expired, link))
      ensures rc ==
        if keepAliveInterval == 0 || (expired && !old(pingOutstanding) && pingOutstanding) then SUCCESS else FAILURE
    {
      rc := FAILURE;
      if keepAliveInterval == 0 {
        return SUCCESS;
      }
      if expired {
        if !pingOutstanding {
          rc := SendPingRequest(link, FAILURE);
        }
      }
    }

    // MQTTSendPing
    method SendPing(link: Link) returns (rc: int)
      requires Valid()
      modifies `trace, `wire, `pingOutstanding, buf
      ensures Valid()
      ensures trace == old(trace) + StepEvents(Cfg(), keepAliveInterval, old(pingOutstanding), Pinging(link))
      ensures rc == if pingOutstanding || buf.Length < 2 then SUCCESS else FAILURE
    {
      rc := SUCCESS;
      if !pingOutstanding {
        rc := SendPingRequest(link, SUCCESS);
      }
    }

    // The part keepalive and MQTTSendPing share: dflt is returned if the buffer is too short.
    method SendPingRequest(link: Link, dflt: int) returns (rc: int)
      requires Valid() && !pingOutstanding
      modifies `trace, `wire, `pingOutstanding, buf
      ensures Valid() && trace == old(trace) + Sending(Cfg(), PING, link)
      ensures rc == if buf.Length < 2 then dflt else if pingOutstanding then SUCCESS else FAILURE
      ensures buf.Length < 2 ==> !pingOutstanding
    {
      rc := dflt;
      var len := SerializeZero(buf, buf.Length, PINGREQ);
      AppendSending(trace, Cfg(), PING, link);
      if len > 0 {
        OverwriteStart(old(buf[..]), PING);
        rc := SendPacket(len, PING, link);
        if rc == SUCCESS {
          pingOutstanding := true;
        }
      } else {
        assert trace + [] == trace;
      }
    }

    // cycle, from a packet that has been read
    method Cycle(readbuf: Bytes, link: Link) returns (rc: int)
      requires Valid() && Readable(readbuf)
      modifies `trace, `wire, `pingOutstanding, buf
      ensures Valid()
      ensures trace == old(trace) + StepEvents(old(Cfg()), keepAliveInterval, old(pingOutstanding),
        Cycling(readbuf, link))
      ensures rc == if CycleFails(old(Cfg()), readbuf, link) then FAILURE else TypeOf(readbuf[0])
    {
      hide ParsePublish, ParseAck, CycleFails, CycleCalls, CycleAck, Carried, OutstandingAfter;
      var packetType := TypeOf(readbuf[0]);
      rc := SUCCESS;
      AppendEvent(trace, Received(readbuf), wire);
      trace := trace + [Received(readbuf)];
      if packetType == PINGRESP {
        pingOutstanding := false;
      }
      if packetType == PUBLISH {
        rc := HandlePublish(readbuf, link);
      } else if packetType == PUBREC {
        rc := HandlePubrec(readbuf, link);
      } else {
        NoAction(Cfg(), readbuf, link);
      }
      if rc == SUCCESS {
        rc := packetType;
      }
    }

    method HandlePublish(readbuf: Bytes, link: Link) returns (rc: int)
      requires Valid() && Readable(readbuf) && TypeOf(readbuf[0]) == PUBLISH
      modifies `trace, `wire, buf
      ensures Valid() && trace == old(trace) + CycleCalls(Cfg(), readbuf) + CycleAck(Cfg(), readbuf, link)
      ensures rc == if CycleFails(Cfg(), readbuf, link) then FAILURE else SUCCESS
    {
      hide ParsePublish, ParseAck, Carried, OutstandingAfter, CycleAck, CycleFails, Targets, Calls;
      var r := DeserializePublish(readbuf);
      if !r.Ok? {
        NothingDelivered(Cfg(), readbuf, link, trace);
        return SUCCESS;
      }
      var _ := DeliverMessage(r.value);
      rc := Acknowledge(readbuf, r.value, link);
    }

    // The answer to a PUBLISH
    method Acknowledge(readbuf: Bytes, msg: Message, link: Link) returns (rc: int)
      requires Valid() && MessageOf(readbuf) == Some(msg)
      modifies `trace, `wire, buf
      ensures Valid() && trace == old(trace) + CycleAck(Cfg(), readbuf, link)
      ensures rc == if CycleFails(Cfg(), readbuf, link) then FAILURE else SUCCESS
    {
      hide AckPacket, MessageOf, Carried, OutstandingAfter, Sending;
      MessageShape(readbuf);
      rc := SUCCESS;
      if msg.qos != 0 {
        if msg.qos == 1 {
          rc := SendAck(PUBACK, msg.id.value, link);
        } else if msg.qos == 2 {
          rc := SendAck(PUBREC, msg.id.value, link);
        } else {
          rc := FAILURE;
        }
      }
    }

    method HandlePubrec(readbuf: Bytes, link: Link) returns (rc: int)
      requires Valid() && Readable(readbuf) && TypeOf(readbuf[0]) == PUBREC
      modifies `trace, `wire, buf
      ensures Valid() && trace == old(trace) + CycleCalls(Cfg(), readbuf) + CycleAck(Cfg(), readbuf, link)
      ensures rc == if CycleFails(Cfg(), readbuf, link) then FAILURE else SUCCESS
    {
      hide AckPacket, Carried, OutstandingAfter, Sending, ParseAck;
      var r := DeserializeAck(readbuf);
      if !r.Ok? {
        assert trace + [] + [] == trace;
        return FAILURE;
      }
      rc := SendAck(PUBREL, r.value.2, link);
    }

    method SendAck(msgType: Byte, id: nat, link: Link) returns (rc: int)
      requires Valid() && msgType < 16
      modifies `trace, `wire, buf
      ensures Valid() && trace == old(trace) + Sending(Cfg(), AckPacket(msgType, 0, id), link)
      ensures var events := Sending(Cfg(), AckPacket(msgType, 0, id), link);
        rc == if events != [] && AllWhole(events) then SUCCESS else FAILURE
    {
      hide Carried, OutstandingAfter, TakenBy, Filled, AddsUp, Copied;
      var len := SerializeAck(buf, buf.Length, msgType, 0, id);
      AppendSending(trace, Cfg(), AckPacket(msgType, 0, id), link);
      if len <= 0 {
        assert trace + [] == trace;
        return FAILURE;
      }
      ghost var ack := AckPacket(msgType, 0, id);
      FilledStart(buf[..], old(buf[..]), ack);
      SentWhole(Cfg(), ack, link);
      rc := SendPacket(len, ack, link);
    }
  }

  lemma NothingDelivered(cfg: Config, packet: Bytes, link: Link, trace: seq<Event>)
    requires packet != [] && TypeOf(packet[0]) == PUBLISH && !ParsePublish(packet).Ok?
    ensures trace + CycleCalls(cfg, packet) + CycleAck(cfg, packet, link) == trace && !CycleFails(cfg, packet, link)
  {
    hide ParsePublish, ParseAck;
    assert trace + [] + [] == trace;
  }

  lemma SentWhole(cfg: Config, packet: Bytes, link: Link)
    requires |packet| <= cfg.size
    ensures var events := Sending(cfg, packet, link);
      events != [] && AllWhole(events) <==> link.up && TakenBy(link.writes, |packet|, 0) == |packet|
  {
    hide TakenBy;
    if link.up {
      assert Sending(cfg, packet, link)[0].Sent?;
    }
  }

  lemma NoCalls(trace: seq<Event>, m: Message)
    ensures trace + Calls([], m) == trace
  {}

  lemma OneMoreCall(trace: seq<Event>, called: seq<nat>, handler: nat, m: Message, wire: Bytes)
    ensures var before := trace + Calls(called, m);
      && before + [Called(handler, m)] == trace + Calls(called + [handler], m)
      && OutstandingAfter(before + [Called(handler, m)]) == OutstandingAfter(before)
      && (Carried(before, wire) ==> Carried(before + [Called(handler, m)], wire))
  {}

  lemma MatchingStep(slots: seq<Slot>, topic: Bytes, i: nat, called: seq<nat>)
    requires i < |slots|
    ensures var s := slots[i];
      called + Matching(slots[i..], topic) ==
      if s.filter.Some? && (topic == s.filter.value || Matches(s.filter.value, topic)) && s.fp.Some?
      then called + [s.fp.value] + Matching(slots[i + 1..], topic) else called + Matching(slots[i + 1..], topic)
  {
    hide Matches;
    var more := Matching(slots[i + 1..], topic);
    assert slots[i..][1..] == slots[i + 1..];
    if slots[i].fp.Some? {
      assert called + ([slots[i].fp.value] + more) == called + [slots[i].fp.value] + more;
    }
  }
}
