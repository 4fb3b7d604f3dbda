/**
  What the client of src/libmqtt/MQTTClient.c does over whole runs: message delivery,
  acknowledgements and pings as a trace of events.
*/
module MqttTrace {
  import opened Common
  import opened MqttPacket
  import opened MqttPublish
  import opened TopicFilter

  const SUCCESS := 0
  const FAILURE := -1
  const MAX_PACKET_ID := 65535
  const MAX_MESSAGE_HANDLERS := 5

  // A slot of messageHandlers, and the identity of a handler function with its argument
  datatype Slot = Slot(filter: Option<Bytes>, fp: Option<nat>)

  // What the client does, as seen from outside. taken says how many bytes the network took
  // while a packet was being sent.
  datatype Event = Received(packet: Bytes) | Called(handler: nat, message: Message) | Sent(packet: Bytes, taken: nat)

  // One round of the loop of sendPacket: the timer has expired, or mqttwrite fails or takes
  // so many bytes
  datatype Write = Expired | Error | Took(n: nat)

  // The network during one call: whether it is connected, and how the rounds go. When they
  // have run out the timer has expired.
  datatype Link = Link(up: bool, writes: seq<Write>)

  // The bytes taken. sendPacket offers the length of the packet every time, so that the network
  // may take more than was left of it.
  function TakenBy(writes: seq<Write>, length: nat, sent: nat): nat {
    if sent >= length || writes == [] || !writes[0].Took? then sent
    else TakenBy(writes[1..], length, sent + writes[0].n)
  }

  // Some rounds from the first on, none of them failing, add up to exactly n bytes.
  ghost predicate AddsUp(writes: seq<Write>, n: int) {
    exists k :: 0 <= k <= |writes| && AllTook(writes[..k]) && Sum(writes[..k]) == n
  }

  predicate AllTook(writes: seq<Write>) {
    forall i :: 0 <= i < |writes| ==> writes[i].Took?
  }

  function Sum(writes: seq<Write>): nat {
    if writes == [] then 0 else (if writes[0].Took? then writes[0].n else 0) + Sum(writes[1..])
  }

  lemma AddsUpStep(writes: seq<Write>, n: int)
    ensures n == 0 ==> AddsUp(writes, n)
    ensures n < 0 || (n > 0 && (writes == [] || !writes[0].Took?)) ==> !AddsUp(writes, n)
    ensures n > 0 && writes != [] && writes[0].Took? ==> (AddsUp(writes, n) <==> AddsUp(writes[1..], n - writes[0].n))
  {
    if n == 0 {
      assert AllTook(writes[..0]) && Sum(writes[..0]) == 0;
    }
    if n > 0 && writes != [] && writes[0].Took? {
      if k :| 0 <= k <= |writes| && AllTook(writes[..k]) && Sum(writes[..k]) == n {
        assert writes[..k][1..] == writes[1..][..k - 1];
      }
      if k :| 0 <= k <= |writes[1..]| && AllTook(writes[1..][..k]) && Sum(writes[1..][..k]) == n - writes[0].n {
        assert writes[..k + 1] == [writes[0]] + writes[1..][..k];
        assert writes[..k + 1][1..] == writes[1..][..k];
      }
    }
  }

  // The whole packet is sent, and no more, exactly if some rounds add up to its length.
  lemma {:induction false} SentWholeExact(writes: seq<Write>, length: nat, sent: nat)
    ensures TakenBy(writes, length, sent) == length <==> AddsUp(writes, length - sent)
  {
    hide AddsUp;
    AddsUpStep(writes, length - sent);
    if sent < length && writes != [] && writes[0].Took? {
      SentWholeExact(writes[1..], length, sent + writes[0].n);
    }
  }

  // A network that takes two bytes of four, and then all four it is offered, has taken too many.
  lemma TakesTooMuch()
    ensures TakenBy([Took(2), Took(4)], 4, 0) == 6 && !AddsUp([Took(2), Took(4)], 4)
  {
    SentWholeExact([Took(2), Took(4)], 4, 0);
  }

  // ---- Handlers ----

  // deliverMessage: the handlers called for a topic, in slot order
  function Matching(slots: seq<Slot>, topic: Bytes): seq<nat> {
    if slots == [] then [] else
    var s := slots[0];
    var rest := Matching(slots[1..], topic);
    if s.filter.Some? && (topic == s.filter.value || Matches(s.filter.value, topic)) && s.fp.Some?
    then [s.fp.value] + rest else rest
  }

  function Targets(slots: seq<Slot>, fallback: Option<nat>, topic: Bytes): seq<nat> {
    var matching := Matching(slots, topic);
    if matching == [] && fallback.Some? then [fallback.value] else matching
  }

  function Calls(targets: seq<nat>, message: Message): (events: seq<Event>)
    ensures |events| == |targets|
    ensures forall i :: 0 <= i < |events| ==> events[i] == Called(targets[i], message)
  {
    seq(|targets|, i requires 0 <= i < |targets| => Called(targets[i], message))
  }

  // A handler runs for a message exactly if one of its slots has a filter that the standard
  // matches, up to the matcher's two exceptions; the default handler runs exactly if no
  // other one does.
  lemma {:induction false} MatchingExact(slots: seq<Slot>, topic: Bytes, handler: nat)
    requires forall i :: 0 <= i < |slots| && slots[i].filter.Some? ==> WellFormed(Levels(slots[i].filter.value))
    ensures handler in Matching(slots, topic) <==> exists i :: 0 <= i < |slots| && Serves(slots[i], topic, handler)
  {
    if slots != [] {
      MatchingExact(slots[1..], topic, handler);
      if slots[0].filter.Some? {
        MatcherExact(slots[0].filter.value, topic);
        EqualIsMatched(slots[0].filter.value);
      }
      if exists i :: 0 <= i < |slots| && Serves(slots[i], topic, handler) {
        var i :| 0 <= i < |slots| && Serves(slots[i], topic, handler);
        if i > 0 {
          assert Serves(slots[1..][i - 1], topic, handler);
        }
      }
      if exists i :: 0 <= i < |slots[1..]| && Serves(slots[1..][i], topic, handler) {
        var i :| 0 <= i < |slots[1..]| && Serves(slots[1..][i], topic, handler);
        assert Serves(slots[i + 1], topic, handler);
      }
    }
  }

  // The handlers called are those of the slots that serve the topic, in slot order; ks are the
  // places of these slots.
  lemma {:induction false} MatchingInOrder(slots: seq<Slot>, topic: Bytes) returns (ks: seq<nat>)
    requires forall i :: 0 <= i < |slots| && slots[i].filter.Some? ==> WellFormed(Levels(slots[i].filter.value))
    ensures Places(slots, topic, ks, Matching(slots, topic))
  {
    hide Serves, Matches, Levels, Places, Shifted, Matching;
    if slots == [] {
      ks := [];
      NoPlaces(topic);
    } else {
      var later := MatchingInOrder(slots[1..], topic);
      FirstServes(slots, topic);
      MorePlaces(slots, topic, later, Matching(slots[1..], topic));
      ks := if exists handler: nat :: Serves(slots[0], topic, handler) then [0] + Shifted(later) else Shifted(later);
    }
  }

  ghost predicate Places(slots: seq<Slot>, topic: Bytes, ks: seq<nat>, handlers: seq<nat>) {
    Increasing(ks) && Lead(slots, topic, 0, ks, handlers) && Cover(slots, topic, 0, ks)
  }

  predicate Increasing(ks: seq<nat>) {
    forall i, j :: 0 <= i < j < |ks| ==> ks[i] < ks[j]
  }

  // The slots at these places serve the topic with these handlers.
  predicate Lead(slots: seq<Slot>, topic: Bytes, from: nat, ks: seq<nat>, handlers: seq<nat>) {
    && |ks| == |handlers|
    && forall j :: 0 <= j < |ks| ==>
      from <= ks[j] < |slots| && Serves(slots[ks[j]], topic, handlers[j])
  }

  // No other slots do.
  ghost predicate Cover(slots: seq<Slot>, topic: Bytes, from: nat, ks: seq<nat>) {
    forall i: nat, handler: nat :: from <= i < |slots| && Serves(slots[i], topic, handler) ==> i in ks
  }

  function Shifted(ks: seq<nat>): (s: seq<nat>)
    ensures |s| == |ks| && forall j :: 0 <= j < |ks| ==> s[j] == ks[j] + 1
  {
    seq(|ks|, j requires 0 <= j < |ks| => ks[j] + 1)
  }

  lemma NoPlaces(topic: Bytes)
    ensures Places([], topic, [], Matching([], topic))
  {}

  lemma MorePlaces(slots: seq<Slot>, topic: Bytes, later: seq<nat>, rest: seq<nat>)
    requires slots != [] && Places(slots[1..], topic, later, rest)
    ensures forall handler: nat :: Serves(slots[0], topic, handler) ==>
      Places(slots, topic, [0] + Shifted(later), [handler] + rest)
    ensures (exists handler: nat :: Serves(slots[0], topic, handler)) || Places(slots, topic, Shifted(later), rest)
  {
    hide Serves, Places, Shifted, Increasing, Lead, Cover;
    LaterPlaces(slots, topic, later, rest);
    forall handler: nat | Serves(slots[0], topic, handler)
      ensures Places(slots, topic, [0] + Shifted(later), [handler] + rest)
    {
      FirstPlace(slots, topic, Shifted(later), handler, rest);
    }
    if !exists handler: nat :: Serves(slots[0], topic, handler) {
      NoFirstPlace(slots, topic, Shifted(later), rest);
    }
  }

  lemma LaterPlaces(slots: seq<Slot>, topic: Bytes, later: seq<nat>, rest: seq<nat>)
    requires slots != [] && Places(slots[1..], topic, later, rest)
    ensures var ks := Shifted(later);
      Increasing(ks) && Lead(slots, topic, 1, ks, rest) && Cover(slots, topic, 1, ks)
  {
    hide Serves;
    var ks := Shifted(later);
    forall i: nat, handler: nat | 0 < i < |slots| && Serves(slots[i], topic, handler) ensures i in ks {
      assert slots[1..][i - 1] == slots[i];
      var j :| 0 <= j < |later| && later[j] == i - 1;
      assert ks[j] == i;
    }
    forall j | 0 <= j < |ks| ensures 0 < ks[j] < |slots| && Serves(slots[ks[j]], topic, rest[j]) {
      assert slots[1..][later[j]] == slots[ks[j]];
    }
  }

  lemma FirstPlace(slots: seq<Slot>, topic: Bytes, ks: seq<nat>, handler: nat, rest: seq<nat>)
    requires slots != [] && Serves(slots[0], topic, handler)
    requires Increasing(ks) && Lead(slots, topic, 1, ks, rest) && Cover(slots, topic, 1, ks)
    ensures Places(slots, topic, [0] + ks, [handler] + rest)
  {
    hide Serves, Increasing, Lead, Cover;
    StillIncreasing(slots, topic, ks, rest);
    StillLead(slots, topic, ks, handler, rest);
    StillCover(slots, topic, ks);
  }

  lemma StillIncreasing(slots: seq<Slot>, topic: Bytes, ks: seq<nat>, rest: seq<nat>)
    requires Increasing(ks) && Lead(slots, topic, 1, ks, rest)
    ensures Increasing([0] + ks)
  {
    hide Serves;
  }

  lemma StillLead(slots: seq<Slot>, topic: Bytes, ks: seq<nat>, handler: nat, rest: seq<nat>)
    requires slots != [] && Serves(slots[0], topic, handler) && Lead(slots, topic, 1, ks, rest)
    ensures Lead(slots, topic, 0, [0] + ks, [handler] + rest)
  {
    hide Serves;
  }

  lemma StillCover(slots: seq<Slot>, topic: Bytes, ks: seq<nat>)
    requires Cover(slots, topic, 1, ks)
    ensures Cover(slots, topic, 0, [0] + ks)
  {
    hide Serves;
    forall i: nat, handler: nat | i < |slots| && Serves(slots[i], topic, handler) ensures i in [0] + ks {
      if i > 0 {
        assert i in ks;
      }
    }
  }

  lemma NoFirstPlace(slots: seq<Slot>, topic: Bytes, ks: seq<nat>, rest: seq<nat>)
    requires slots != [] && forall handler: nat :: !Serves(slots[0], topic, handler)
    requires Increasing(ks) && Lead(slots, topic, 1, ks, rest) && Cover(slots, topic, 1, ks)
    ensures Places(slots, topic, ks, rest)
  {
    hide Serves;
  }

  lemma FirstServes(slots: seq<Slot>, topic: Bytes)
    requires slots != []
    requires slots[0].filter.Some? ==> WellFormed(Levels(slots[0].filter.value))
    ensures var m, rest := Matching(slots, topic), Matching(slots[1..], topic);
      if exists handler: nat :: Serves(slots[0], topic, handler)
      then m != [] && Serves(slots[0], topic, m[0]) && m == [m[0]] + rest else m == rest
  {
    hide Matches, Levels;
    if slots[0].filter.Some? {
      MatcherExact(slots[0].filter.value, topic);
      EqualIsMatched(slots[0].filter.value);
      if slots[0].fp.Some? && Matching(slots, topic) != Matching(slots[1..], topic) {
        assert Serves(slots[0], topic, slots[0].fp.value);
      }
      if handler: nat :| Serves(slots[0], topic, handler) {
        assert slots[0].fp == Some(handler);
      }
    }
  }

  // The default handler is called exactly if it is set and no slot serves the topic.
  lemma DefaultExact(slots: seq<Slot>, fallback: Option<nat>, topic: Bytes)
    requires forall i :: 0 <= i < |slots| && slots[i].filter.Some? ==> WellFormed(Levels(slots[i].filter.value))
    ensures Targets(slots, fallback, topic) ==
      if fallback.Some? && !(exists i: nat, handler: nat :: i < |slots| && Serves(slots[i], topic, handler))
      then [fallback.value] else Matching(slots, topic)
  {
    hide Serves, Levels;
    var ks := MatchingInOrder(slots, topic);
    if Matching(slots, topic) != [] {
      assert Serves(slots[ks[0]], topic, Matching(slots, topic)[0]);
    }
  }

  predicate Serves(slot: Slot, topic: Bytes, handler: nat) {
    && slot.filter.Some? && slot.fp == Some(handler)
    && StandardMatch(Levels(slot.filter.value), Levels(topic))
    && WildcardsCovered(Levels(slot.filter.value), Levels(topic))
  }

  // ---- Acknowledgements ----

  // The parser accepts, or rejects with a code that is told from success. Otherwise cycle goes on
  // with variables that were never set, or with what is outside its buffer.
  predicate Told<T>(r: Parsed<T>) {
    r.Ok? || (r.Malformed? && r.rc != 1)
  }

  // What cycle starts from: its read buffer with a packet in it
  predicate Readable(packet: Bytes) {
    && packet != [] && TypeOf(packet[0]) != 0
    && (TypeOf(packet[0]) == PUBLISH ==> Told(ParsePublish(packet)))
    && (TypeOf(packet[0]) == PUBREC ==> Told(ParseAck(packet)))
  }

  // The message of a PUBLISH, also of one that ends inside its packet id
  function MessageOf(packet: Bytes): Option<Message> {
    if packet != [] && TypeOf(packet[0]) == PUBLISH && ParsePublish(packet).Ok?
    then Some(ParsePublish(packet).value) else None
  }

  // The acknowledgement a packet calls for
  function Due(packet: Bytes): (ack: Option<Bytes>)
    ensures ack.Some? ==> |ack.value| == 4
  {
    var m := MessageOf(packet);
    if m.Some? then
      if m.value.qos == 1 && m.value.id.Some? then Some(AckPacket(PUBACK, 0, m.value.id.value))
      else if m.value.qos == 2 && m.value.id.Some? then Some(AckPacket(PUBREC, 0, m.value.id.value))
      else None
    else if packet != [] && TypeOf(packet[0]) == PUBREC && ParseAck(packet).Ok?
    then Some(AckPacket(PUBREL, 0, ParseAck(packet).value.2))
    else None
  }

  const PING: Bytes := [16 * PINGREQ, 0]

  // ---- One step ----

  // What does not change while the client runs: the handlers, and the size of the send buffer
  datatype Config = Config(slots: seq<Slot>, fallback: Option<nat>, size: nat)

  // What sending a packet of this length adds to the trace
  function Sending(cfg: Config, packet: Bytes, link: Link): seq<Event> {
    if |packet| > cfg.size || !link.up then [] else [Sent(packet, TakenBy(link.writes, |packet|, 0))]
  }

  predicate AllWhole(events: seq<Event>) {
    forall i :: 0 <= i < |events| && events[i].Sent? ==> events[i].taken == |events[i].packet|
  }

  function CycleCalls(cfg: Config, packet: Bytes): seq<Event> {
    var m := MessageOf(packet);
    if m.Some? then Calls(Targets(cfg.slots, cfg.fallback, m.value.topic), m.value) else []
  }

  function CycleAck(cfg: Config, packet: Bytes, link: Link): seq<Event> {
    var ack := Due(packet);
    if ack.Some? then Sending(cfg, ack.value, link) else []
  }

  // The events of one cycle: the message is delivered before it is acknowledged.
  function CycleEvents(cfg: Config, packet: Bytes, link: Link): seq<Event> {
    [Received(packet)] + CycleCalls(cfg, packet) + CycleAck(cfg, packet, link)
  }

  // It fails if an acknowledgement was due and did not get out whole, for the QoS value that
  // does not exist, and for a PUBREC that is rejected.
  predicate CycleFails(cfg: Config, packet: Bytes, link: Link) {
    || (MessageOf(packet).Some? && MessageOf(packet).value.qos == 3)
    || (packet != [] && TypeOf(packet[0]) == PUBREC && ParseAck(packet).Malformed?)
    || (Due(packet).Some? && !(CycleAck(cfg, packet, link) != [] && AllWhole(CycleAck(cfg, packet, link))))
  }

  // ---- What the wire carries ----

  // The wire holds, packet by packet, as many bytes as the network took; those that belong to
  // the packet are the packet's.
  ghost predicate Carried(trace: seq<Event>, wire: Bytes) {
    if trace == [] then wire == [] else
    var n, e := |trace| - 1, trace[|trace| - 1];
    if !e.Sent? then Carried(trace[..n], wire) else
    e.taken <= |wire| && Carried(trace[..n], wire[..|wire| - e.taken])
      && Grown(wire[..|wire| - e.taken], wire, e.packet, e.taken)
  }

  // The wire has grown from start by taken bytes, those of the packet first.
  ghost predicate Grown(start: Bytes, wire: Bytes, packet: Bytes, taken: nat) {
    && |wire| == |start| + taken && wire[..|start|] == start
    && forall i :: 0 <= i < taken && i < |packet| ==> wire[|start| + i] == packet[i]
  }

  lemma GrownWhole(start: Bytes, wire: Bytes, packet: Bytes)
    requires Grown(start, wire, packet, |packet|)
    ensures wire == start + packet
  {}

  lemma CarriedSent(trace: seq<Event>, start: Bytes, packet: Bytes, taken: nat, wire: Bytes)
    requires Carried(trace, start) && Grown(start, wire, packet, taken)
    ensures Carried(trace + [Sent(packet, taken)], wire)
  {}

  function Packets(trace: seq<Event>): Bytes {
    if trace == [] then [] else
    Packets(trace[..|trace| - 1]) + if trace[|trace| - 1].Sent? then trace[|trace| - 1].packet else []
  }

  // If every packet got out whole, the wire holds exactly the packets in order.
  lemma {:induction false} WholePacketsOnTheWire(trace: seq<Event>, wire: Bytes)
    requires Carried(trace, wire) && AllWhole(trace)
    ensures wire == Packets(trace)
  {
    if trace != [] {
      var n, e := |trace| - 1, trace[|trace| - 1];
      if e.Sent? {
        WholePacketsOnTheWire(trace[..n], wire[..|wire| - e.taken]);
        GrownWhole(wire[..|wire| - e.taken], wire, e.packet);
      } else {
        WholePacketsOnTheWire(trace[..n], wire);
      }
    }
  }

  // ---- Outstanding pings ----

  predicate PingSent(e: Event) {
    e == Sent(PING, |PING|)
  }

  predicate Pong(e: Event) {
    e.Received? && e.packet != [] && TypeOf(e.packet[0]) == PINGRESP
  }

  predicate OutstandingAfter(trace: seq<Event>) {
    trace != [] &&
    var e := trace[|trace| - 1];
    PingSent(e) || (!Pong(e) && OutstandingAfter(trace[..|trace| - 1]))
  }

  // A ping that got out has not been answered.
  ghost predicate Unanswered(trace: seq<Event>) {
    exists i :: 0 <= i < |trace| && PingSent(trace[i]) && forall k :: i < k < |trace| ==> !Pong(trace[k])
  }

  lemma {:induction false} OutstandingExact(trace: seq<Event>)
    ensures OutstandingAfter(trace) <==> Unanswered(trace)
  {
    hide PingSent, Pong;
    if trace != [] {
      var last, before := |trace| - 1, trace[..|trace| - 1];
      OutstandingExact(before);
      Exclusive(trace[last]);
      if PingSent(trace[last]) {
        assert Unanswered(trace);
      } else {
        if Unanswered(trace) {
          var i :| 0 <= i < |trace| && PingSent(trace[i]) && forall k :: i < k < |trace| ==> !Pong(trace[k]);
          assert before[i] == trace[i] && forall k :: i < k < last ==> before[k] == trace[k];
          assert Unanswered(before);
        }
        if Unanswered(before) && !Pong(trace[last]) {
          var i :| 0 <= i < last && PingSent(before[i]) && forall k :: i < k < last ==> !Pong(before[k]);
          assert forall k :: i < k < last ==> before[k] == trace[k];
          assert PingSent(trace[i]) && forall k :: i < k < |trace| ==> !Pong(trace[k]);
        }
      }
    }
  }

  lemma Exclusive(e: Event)
    ensures !(PingSent(e) && Pong(e))
  {}

  lemma AppendEvent(trace: seq<Event>, e: Event, wire: Bytes)
    ensures OutstandingAfter(trace + [e]) == (PingSent(e) || (!Pong(e) && OutstandingAfter(trace)))
    ensures !e.Sent? && Carried(trace, wire) ==> Carried(trace + [e], wire)
  {}

  lemma AppendSending(trace: seq<Event>, cfg: Config, packet: Bytes, link: Link)
    ensures var events := Sending(cfg, packet, link);
      OutstandingAfter(trace + events)
        == (OutstandingAfter(trace) || (packet == PING && events != [] && AllWhole(events)))
  {
    hide TakenBy;
    if |packet| > cfg.size || !link.up {
      assert trace + [] == trace;
    } else {
      AppendEvent(trace, Sent(packet, TakenBy(link.writes, |packet|, 0)), []);
    }
  }

  lemma MessageShape(packet: Bytes)
    requires MessageOf(packet).Some?
    ensures var m := MessageOf(packet).value;
      TypeOf(packet[0]) == PUBLISH && m.qos < 4 && (m.qos > 0 ==> m.id.Some?)
  {}

  // Any other packet only leaves its trace.
  lemma NoAction(cfg: Config, packet: Bytes, link: Link)
    requires packet != [] && TypeOf(packet[0]) !in {PUBLISH, PUBREC}
    ensures CycleEvents(cfg, packet, link) == [Received(packet)] && !CycleFails(cfg, packet, link)
  {}

  // A PUBLISH that its parser rejects is reported as handled, without a handler having run.
  lemma RejectedPublish(cfg: Config, packet: Bytes, link: Link)
    requires packet != [] && TypeOf(packet[0]) == PUBLISH
    ensures ParsePublish(packet).Malformed? ==>
      CycleEvents(cfg, packet, link) == [Received(packet)] && !CycleFails(cfg, packet, link)
  {
    hide ParsePublish, ParseAck;
  }

  // One with a length field of two bytes that is rejected
  lemma RejectedPublishInput(rest: Bytes)
    ensures ParsePublish([0x30, 0x80, 0x00] + rest) == Malformed(2) && Readable([0x30, 0x80, 0x00] + rest)
  {
    var packet := [0x30, 0x80, 0x00] + rest;
    assert DecodeLength(packet[1..], 4) == Decoded(Complete, 0, 2) by {
      assert packet[1..][1..][0] == 0;
    }
    hide ReadInt, DecodeLength;
  }

  // ---- Runs ----

  datatype Input = Cycling(packet: Bytes, link: Link) | Keeping(expired: bool, link: Link) | Pinging(link: Link)

  function StepEvents(cfg: Config, interval: nat, outstanding: bool, input: Input): seq<Event> {
    match input
    case Cycling(packet, link) => CycleEvents(cfg, packet, link)
    case Keeping(expired, link) => if interval != 0 && expired && !outstanding then Sending(cfg, PING, link) else []
    case Pinging(link) => if !outstanding then Sending(cfg, PING, link) else []
  }

  // The trace of a run of cycle, keepalive and MQTTSendPing, in any order
  function Run(cfg: Config, interval: nat, inputs: seq<Input>): seq<Event> {
    if inputs == [] then [] else
    var before := Run(cfg, interval, inputs[..|inputs| - 1]);
    before + StepEvents(cfg, interval, OutstandingAfter(before), inputs[|inputs| - 1])
  }

  // The acknowledgements that got out whole, and those called for, in order
  function Acks(trace: seq<Event>): seq<Bytes> {
    if trace == [] then [] else
    var e := trace[|trace| - 1];
    Acks(trace[..|trace| - 1]) + if e.Sent? && e.packet != PING && e.taken == |e.packet| then [e.packet] else []
  }

  function DueAcks(trace: seq<Event>): seq<Bytes> {
    if trace == [] then [] else
    var e := trace[|trace| - 1];
    DueAcks(trace[..|trace| - 1]) + if e.Received? && Due(e.packet).Some? then [Due(e.packet).value] else []
  }

  predicate Subsequence(a: seq<Bytes>, b: seq<Bytes>) {
    if b == [] then a == []
    else
      || (a != [] && a[|a| - 1] == b[|b| - 1] && Subsequence(a[..|a| - 1], b[..|b| - 1]))
      || Subsequence(a, b[..|b| - 1])
  }

  lemma {:induction false} AcksConcat(t: seq<Event>, u: seq<Event>)
    ensures Acks(t + u) == Acks(t) + Acks(u) && DueAcks(t + u) == DueAcks(t) + DueAcks(u)
  {
    hide Due;
    if u == [] {
      assert t + u == t;
    } else {
      var n := |u| - 1;
      assert (t + u)[..|t + u| - 1] == t + u[..n];
      AcksConcat(t, u[..n]);
    }
  }

  lemma {:induction false} NoAcksInCalls(targets: seq<nat>, m: Message)
    ensures Acks(Calls(targets, m)) == [] && DueAcks(Calls(targets, m)) == []
  {
    if targets != [] {
      var n := |targets| - 1;
      NoAcksInCalls(targets[..n], m);
      assert Calls(targets, m)[..n] == Calls(targets[..n], m);
    }
  }

  // One cycle sends the acknowledgement it owes, or nothing if it fails.
  lemma CycleAcks(cfg: Config, packet: Bytes, link: Link)
    ensures var owed := if Due(packet).Some? then [Due(packet).value] else [];
      && DueAcks(CycleEvents(cfg, packet, link)) == owed
      && Acks(CycleEvents(cfg, packet, link)) == if CycleFails(cfg, packet, link) then [] else owed
  {
    hide Due, MessageOf, Matching, Targets, TakenBy, Acks, DueAcks, ParseAck;
    var r, c, a := [Received(packet)], CycleCalls(cfg, packet), CycleAck(cfg, packet, link);
    AcksConcat(r + c, a);
    AcksConcat(r, c);
    OneReceived(packet);
    if MessageOf(packet).Some? {
      var m := MessageOf(packet).value;
      NoAcksInCalls(Targets(cfg.slots, cfg.fallback, m.topic), m);
    } else {
      NothingSent();
    }
    NothingDue(packet);
    OneSent(cfg, packet, link);
    Surrounded(DueAcks(r));
  }

  lemma Surrounded(a: seq<Bytes>)
    ensures a + [] == a && [] + a == a && [] + [] + a == a && a + [] + [] == a
  {}

  lemma NothingSent()
    ensures Acks([]) == [] && DueAcks([]) == []
  {}

  lemma OneReceived(packet: Bytes)
    ensures Acks([Received(packet)]) == []
    ensures DueAcks([Received(packet)]) == if Due(packet).Some? then [Due(packet).value] else []
  {
    hide Due;
    assert [Received(packet)][..0] == [];
  }

  lemma NothingDue(packet: Bytes)
    ensures MessageOf(packet).Some? && MessageOf(packet).value.qos == 3 ==> Due(packet) == None
    ensures packet != [] && TypeOf(packet[0]) == PUBREC && ParseAck(packet).Malformed? ==> Due(packet) == None
  {
    hide ParsePublish, ParseAck;
  }

  lemma OneSent(cfg: Config, packet: Bytes, link: Link)
    ensures var a := CycleAck(cfg, packet, link);
      && DueAcks(a) == []
      && Acks(a) == if Due(packet).Some? && a != [] && AllWhole(a) then [Due(packet).value] else []
  {}

  predicate AllAcked(cfg: Config, inputs: seq<Input>) {
    forall i :: 0 <= i < |inputs| && inputs[i].Cycling? && Due(inputs[i].packet).Some? ==>
      !CycleFails(cfg, inputs[i].packet, inputs[i].link)
  }

  // Over every run, the acknowledgements sent are some of those called for, in order; they are
  // all of them exactly if no cycle failed that had one to send.
  lemma {:induction false} AcksInOrder(cfg: Config, interval: nat, inputs: seq<Input>)
    ensures var t := Run(cfg, interval, inputs);
      && Subsequence(Acks(t), DueAcks(t)) && |Acks(t)| <= |DueAcks(t)|
      && (Acks(t) == DueAcks(t) <==> AllAcked(cfg, inputs))
  {
    hide Due, CycleFails, CycleEvents, Sending;
    if inputs != [] {
      var n, input := |inputs| - 1, inputs[|inputs| - 1];
      AcksInOrder(cfg, interval, inputs[..n]);
      AllAckedLast(cfg, inputs);
      var before := Run(cfg, interval, inputs[..n]);
      StepAcks(cfg, interval, before, input);
      if input.Cycling? && Due(input.packet).Some? {
        ExtendBoth(Acks(before), DueAcks(before), Due(input.packet).value);
      }
    } else {
      assert Subsequence([], []);
    }
  }

  lemma StepAcks(cfg: Config, interval: nat, t: seq<Event>, input: Input)
    ensures var t' := t + StepEvents(cfg, interval, OutstandingAfter(t), input);
      if input.Cycling? && Due(input.packet).Some? then
        var ack := Due(input.packet).value;
        && DueAcks(t') == DueAcks(t) + [ack]
        && Acks(t') == if CycleFails(cfg, input.packet, input.link) then Acks(t) else Acks(t) + [ack]
      else Acks(t') == Acks(t) && DueAcks(t') == DueAcks(t)
  {
    hide Due, CycleFails, CycleEvents, Sending, Acks, DueAcks;
    AcksConcat(t, StepEvents(cfg, interval, OutstandingAfter(t), input));
    Unextended(Acks(t));
    Unextended(DueAcks(t));
    if input.Cycling? {
      CycleAcks(cfg, input.packet, input.link);
    } else {
      PingsAreNoAcks(cfg, input.link);
    }
  }

  lemma Unextended(a: seq<Bytes>)
    ensures a + [] == a
  {}

  lemma AllAckedLast(cfg: Config, inputs: seq<Input>)
    requires inputs != []
    ensures var last := inputs[|inputs| - 1];
      && (AllAcked(cfg, inputs) <==>
        (AllAcked(cfg, inputs[..|inputs| - 1])
         && (last.Cycling? && Due(last.packet).Some? ==> !CycleFails(cfg, last.packet, last.link))))
  {}

  lemma PingsAreNoAcks(cfg: Config, link: Link)
    ensures Acks(Sending(cfg, PING, link)) == [] && DueAcks(Sending(cfg, PING, link)) == []
    ensures Acks([]) == [] && DueAcks([]) == []
  {}

  lemma ExtendBoth(a: seq<Bytes>, b: seq<Bytes>, last: Bytes)
    ensures Subsequence(a, b) ==> Subsequence(a + [last], b + [last]) && Subsequence(a, b + [last])
    ensures a + [last] == b + [last] <==> a == b
    ensures |a| <= |b| ==> a != b + [last]
  {}

  // The i-th event acknowledges the packet received at the j-th, and between them are exactly
  // the calls of all handlers for its message.
  predicate Acknowledges(cfg: Config, t: seq<Event>, j: nat, i: nat)
    requires j < i < |t|
  {
    && t[j].Received? && t[i].Sent? && Due(t[j].packet) == Some(t[i].packet)
    && t[j + 1..i] == CycleCalls(cfg, t[j].packet)
  }

  // Over every run, every acknowledgement, whole or not, comes right behind the packet that
  // called for it and the calls of all handlers for its message.
  lemma {:induction false} AckFollowsDelivery(cfg: Config, interval: nat, inputs: seq<Input>)
    ensures var t := Run(cfg, interval, inputs);
      forall i :: 0 <= i < |t| && t[i].Sent? && t[i].packet != PING ==>
        exists j :: 0 <= j < i && Acknowledges(cfg, t, j, i)
  {
    hide Acknowledges, Run;
    var t := Run(cfg, interval, inputs);
    forall i | 0 <= i < |t| && t[i].Sent? && t[i].packet != PING
      ensures exists j :: 0 <= j < i && Acknowledges(cfg, t, j, i)
    {
      var j := AckOrigin(cfg, interval, inputs, i);
    }
  }

  lemma {:induction false} AckOrigin(cfg: Config, interval: nat, inputs: seq<Input>, i: nat) returns (j: nat)
    requires i < |Run(cfg, interval, inputs)|
    requires Run(cfg, interval, inputs)[i].Sent? && Run(cfg, interval, inputs)[i].packet != PING
    ensures j < i && Acknowledges(cfg, Run(cfg, interval, inputs), j, i)
  {
    hide Due, CycleCalls, CycleEvents, Sending, PING;
    var n, input := |inputs| - 1, inputs[|inputs| - 1];
    var t, before := Run(cfg, interval, inputs), Run(cfg, interval, inputs[..n]);
    var step := StepEvents(cfg, interval, OutstandingAfter(before), input);
    if i < |before| {
      j := AckOrigin(cfg, interval, inputs[..n], i);
      Slices(before, step, j, i);
    } else {
      j := |before|;
      SentInCycle(cfg, interval, OutstandingAfter(before), input, i - j);
      Slices(before, step, j, i);
    }
  }

  lemma Slices(a: seq<Event>, b: seq<Event>, j: nat, i: nat)
    requires j < i < |a + b|
    ensures i < |a| ==> (a + b)[j] == a[j] && (a + b)[i] == a[i] && (a + b)[j + 1..i] == a[j + 1..i]
    ensures j == |a| ==> (a + b)[j] == b[0] && (a + b)[i] == b[i - j] && (a + b)[j + 1..i] == b[1..i - j]
  {}

  lemma SentInCycle(cfg: Config, interval: nat, outstanding: bool, input: Input, i: nat)
    requires i < |StepEvents(cfg, interval, outstanding, input)|
    requires StepEvents(cfg, interval, outstanding, input)[i].Sent?
      && StepEvents(cfg, interval, outstanding, input)[i].packet != PING
    ensures var events := StepEvents(cfg, interval, outstanding, input);
      && 0 < i && input.Cycling? && events[0] == Received(input.packet) && Due(input.packet) == Some(events[i].packet)
      && events[1..i] == CycleCalls(cfg, input.packet)
  {}

  // Over every run, keepalive sends a ping exactly if it is switched on, the timer has expired,
  // no ping is unanswered, and buffer and network are there; MQTTSendPing likewise, without
  // switch and timer. Otherwise they do nothing.
  lemma PingsWhenDue(cfg: Config, interval: nat, inputs: seq<Input>, expired: bool, link: Link)
    ensures var t := Run(cfg, interval, inputs);
      var ping := Sent(PING, TakenBy(link.writes, 2, 0));
      var ready := !Unanswered(t) && cfg.size >= 2 && link.up;
      && Run(cfg, interval, inputs + [Keeping(expired, link)])
        == (if interval > 0 && expired && ready then t + [ping] else t)
      && Run(cfg, interval, inputs + [Pinging(link)]) == if ready then t + [ping] else t
  {
    hide TakenBy, OutstandingAfter, Unanswered;
    var t := Run(cfg, interval, inputs);
    OutstandingExact(t);
    assert (inputs + [Keeping(expired, link)])[..|inputs|] == inputs == (inputs + [Pinging(link)])[..|inputs|];
    assert t + [] == t;
  }

  // Over every run, there is an answer between any two pings that got out.
  lemma {:induction false} PingsAlternate(cfg: Config, interval: nat, inputs: seq<Input>, i: nat, j: nat)
    returns (k: nat)
    requires i < j < |Run(cfg, interval, inputs)|
    requires PingSent(Run(cfg, interval, inputs)[i]) && PingSent(Run(cfg, interval, inputs)[j])
    ensures i < k < j && Pong(Run(cfg, interval, inputs)[k])
  {
    hide Pong, PingSent, CycleEvents, Sending, OutstandingAfter;
    var n, input := |inputs| - 1, inputs[|inputs| - 1];
    var t, before := Run(cfg, interval, inputs), Run(cfg, interval, inputs[..n]);
    var step := StepEvents(cfg, interval, OutstandingAfter(before), input);
    assert t == before + step;
    if j < |before| {
      assert t[i] == before[i] && t[j] == before[j];
      k := PingsAlternate(cfg, interval, inputs[..n], i, j);
    } else {
      assert t[j] == step[j - |before|];
      PingAlone(cfg, interval, OutstandingAfter(before), input, j - |before|);
      assert t[i] == before[i];
      k := Answered(before, i);
    }
  }

  lemma PingAlone(cfg: Config, interval: nat, outstanding: bool, input: Input, i: nat)
    requires i < |StepEvents(cfg, interval, outstanding, input)|
      && PingSent(StepEvents(cfg, interval, outstanding, input)[i])
    ensures !outstanding && i == 0
  {}

  lemma {:induction false} Answered(t: seq<Event>, i: nat) returns (k: nat)
    requires i < |t| && PingSent(t[i]) && !OutstandingAfter(t)
    ensures i < k < |t| && Pong(t[k])
  {
    var n := |t| - 1;
    if Pong(t[n]) {
      k := n;
    } else {
      k := Answered(t[..n], i);
    }
  }

  // ---- Deliveries ----

  // The message of a packet is delivered from the j-th event on: every handler called for its
  // topic, in order, with the message as the parser reads it.
  predicate Delivers(cfg: Config, t: seq<Event>, j: nat, m: Message) {
    var targets := Targets(cfg.slots, cfg.fallback, m.topic);
    j + |targets| < |t| && forall k :: 0 <= k < |targets| ==> t[j + 1 + k] == Called(targets[k], m)
  }

  // Over every run, every message received is delivered at once.
  lemma {:induction false} EveryMessageDelivered(cfg: Config, interval: nat, inputs: seq<Input>, j: nat)
    requires j < |Run(cfg, interval, inputs)| && Run(cfg, interval, inputs)[j].Received?
    requires ParsePublish(Run(cfg, interval, inputs)[j].packet).Ok?
    ensures var t := Run(cfg, interval, inputs); Delivers(cfg, t, j, ParsePublish(t[j].packet).value)
  {
    hide ParsePublish, StepEvents, Delivers, OutstandingAfter;
    var n, input := |inputs| - 1, inputs[|inputs| - 1];
    var t, before := Run(cfg, interval, inputs), Run(cfg, interval, inputs[..n]);
    var step := StepEvents(cfg, interval, OutstandingAfter(before), input);
    var m := ParsePublish(t[j].packet).value;
    if j < |before| {
      assert t[j] == before[j];
      EveryMessageDelivered(cfg, interval, inputs[..n], j);
      LaterToo(cfg, before, step, j, m);
    } else {
      assert t[j] == step[j - |before|];
      StepReceives(cfg, interval, OutstandingAfter(before), input, j - |before|);
      MovedBack(cfg, before, step, m);
    }
  }

  lemma LaterToo(cfg: Config, a: seq<Event>, b: seq<Event>, j: nat, m: Message)
    requires Delivers(cfg, a, j, m)
    ensures Delivers(cfg, a + b, j, m)
  {
    hide Targets;
  }

  lemma MovedBack(cfg: Config, a: seq<Event>, b: seq<Event>, m: Message)
    requires Delivers(cfg, b, 0, m)
    ensures Delivers(cfg, a + b, |a|, m)
  {
    hide Targets;
    var targets := Targets(cfg.slots, cfg.fallback, m.topic);
    forall k | 0 <= k < |targets| ensures (a + b)[|a| + 1 + k] == Called(targets[k], m) {
      assert (a + b)[|a| + 1 + k] == b[0 + 1 + k];
    }
  }

  lemma StepReceives(cfg: Config, interval: nat, outstanding: bool, input: Input, i: nat)
    requires i < |StepEvents(cfg, interval, outstanding, input)|
    requires StepEvents(cfg, interval, outstanding, input)[i].Received?
    ensures var step := StepEvents(cfg, interval, outstanding, input);
      && i == 0 && input.Cycling? && step[0] == Received(input.packet)
      && (ParsePublish(input.packet).Ok? ==> Delivers(cfg, step, 0, ParsePublish(input.packet).value))
  {
    hide ParsePublish, Targets, Due;
    if input.Cycling? {
      MessageIs(input.packet);
    }
  }

  // Nothing else is: every call of a handler is one of those for a message received before.
  lemma {:induction false} OnlyMessagesDelivered(cfg: Config, interval: nat, inputs: seq<Input>, i: nat)
    returns (j: nat)
    requires i < |Run(cfg, interval, inputs)| && Run(cfg, interval, inputs)[i].Called?
    ensures var t := Run(cfg, interval, inputs);
      && j < i && t[j].Received? && ParsePublish(t[j].packet) == Ok(t[i].message)
      && var targets := Targets(cfg.slots, cfg.fallback, t[i].message.topic);
      i - j - 1 < |targets| && t[i].handler == targets[i - j - 1]
  {
    hide ParsePublish, Targets, StepEvents, OutstandingAfter;
    var n, input := |inputs| - 1, inputs[|inputs| - 1];
    var t, before := Run(cfg, interval, inputs), Run(cfg, interval, inputs[..n]);
    var step := StepEvents(cfg, interval, OutstandingAfter(before), input);
    if i < |before| {
      assert t[i] == before[i];
      j := OnlyMessagesDelivered(cfg, interval, inputs[..n], i);
      assert t[j] == before[j];
    } else {
      j := |before|;
      assert t[i] == step[i - j];
      StepCalls(cfg, interval, OutstandingAfter(before), input, i - j);
      assert t[j] == step[0];
    }
  }

  lemma StepCalls(cfg: Config, interval: nat, outstanding: bool, input: Input, i: nat)
    requires i < |StepEvents(cfg, interval, outstanding, input)|
    requires StepEvents(cfg, interval, outstanding, input)[i].Called?
    ensures var step := StepEvents(cfg, interval, outstanding, input);
      && 0 < i && step[0].Received? && ParsePublish(step[0].packet) == Ok(step[i].message)
      && var targets := Targets(cfg.slots, cfg.fallback, step[i].message.topic);
      i - 1 < |targets| && step[i].handler == targets[i - 1]
  {
    hide ParsePublish, Targets, Due;
    if input.Cycling? {
      MessageIs(input.packet);
    }
  }

  // ---- What the acknowledgements say ----

  // An acknowledgement of this type and packet id, as the parser reads it
  predicate IsAck(ack: Bytes, msgType: Byte, id: nat) {
    && |ack| == 4 && ParseAck(ack) == Ok((msgType, false, id))
    && QosOf(ack[0]) == (if msgType == PUBREL then 1 else 0) && RetainOf(ack[0]) == 0
  }

  predicate AnswersMessage(packet: Bytes, ack: Bytes, qos: nat, msgType: Byte) {
    var r := ParsePublish(packet);
    r.Ok? && r.value.qos == qos && r.value.id.Some? && IsAck(ack, msgType, r.value.id.value)
  }

  predicate AnswersReceipt(packet: Bytes, ack: Bytes) {
    packet != [] && TypeOf(packet[0]) == PUBREC && ParseAck(packet).Ok? && IsAck(ack, PUBREL, ParseAck(packet).value.2)
  }

  // A PUBLISH of QoS 1 is answered by a PUBACK, one of QoS 2 by a PUBREC, and a PUBREC by a
  // PUBREL, each with the packet id of what it answers.
  predicate Answers(packet: Bytes, ack: Bytes) {
    AnswersMessage(packet, ack, 1, PUBACK) || AnswersMessage(packet, ack, 2, PUBREC) || AnswersReceipt(packet, ack)
  }

  // The packets that are to be answered
  predicate Demands(packet: Bytes) {
    || (ParsePublish(packet).Ok? && ParsePublish(packet).value.qos in {1, 2})
    || (packet != [] && TypeOf(packet[0]) == PUBREC && ParseAck(packet).Ok?)
  }

  lemma DueAnswers(packet: Bytes)
    ensures Due(packet).Some? <==> Demands(packet)
    ensures Due(packet).Some? ==> Answers(packet, Due(packet).value) && |Due(packet).value| == 4
  {
    hide AckPacket, IsAck;
    IdBounds(packet);
    if MessageOf(packet).Some? {
      MessageShape(packet);
      var m := MessageOf(packet).value;
      if m.id.Some? {
        WrittenAck(PUBACK, m.id.value);
        WrittenAck(PUBREC, m.id.value);
      }
    } else if packet != [] && TypeOf(packet[0]) == PUBREC && ParseAck(packet).Ok? {
      WrittenAck(PUBREL, ParseAck(packet).value.2);
    }
  }

  lemma IdBounds(packet: Bytes)
    ensures MessageOf(packet).Some? && MessageOf(packet).value.id.Some? ==> MessageOf(packet).value.id.value < 0x1_0000
    ensures ParseAck(packet).Ok? ==> ParseAck(packet).value.2 < 0x1_0000
    ensures ParsePublish(packet).Ok? <==> MessageOf(packet).Some?
  {}

  lemma WrittenAck(msgType: Byte, id: nat)
    requires msgType < 16 && id < 0x1_0000
    ensures IsAck(AckPacket(msgType, 0, id), msgType, id)
  {
    hide AckPacket, ParseAck;
    AckRoundTrip(msgType, 0, id, []);
    assert AckPacket(msgType, 0, id) + [] == AckPacket(msgType, 0, id);
  }

  // Over every run, every packet sent other than a ping, whole or not, answers one received.
  lemma OnlyAnswers(cfg: Config, interval: nat, inputs: seq<Input>, i: nat) returns (j: nat)
    requires i < |Run(cfg, interval, inputs)|
    requires Run(cfg, interval, inputs)[i].Sent? && Run(cfg, interval, inputs)[i].packet != PING
    ensures var t := Run(cfg, interval, inputs);
      j < i && t[j].Received? && Answers(t[j].packet, t[i].packet)
  {
    hide Due, Run, Answers, Demands, CycleCalls;
    j := AckOrigin(cfg, interval, inputs, i);
    DueAnswers(Run(cfg, interval, inputs)[j].packet);
  }

  // One cycle answers its packet if that is to be answered and the cycle does not fail, and sends
  // nothing if it is not.
  lemma CycleAnswers(cfg: Config, packet: Bytes, link: Link)
    ensures var events := CycleEvents(cfg, packet, link);
      && (Demands(packet) && !CycleFails(cfg, packet, link) ==> exists e :: e in events && IsAnswer(e, packet))
      && (!Demands(packet) ==> forall e :: e in events ==> !e.Sent?)
  {
    hide Due, Demands, Answers, MessageOf;
    DueAnswers(packet);
    var a := CycleAck(cfg, packet, link);
    if Demands(packet) && !CycleFails(cfg, packet, link) {
      assert a[0] in CycleEvents(cfg, packet, link) && IsAnswer(a[0], packet);
    }
  }

  // A whole answer
  predicate IsAnswer(e: Event, packet: Bytes) {
    e.Sent? && e.taken == |e.packet| && Answers(packet, e.packet)
  }

  // A cycle fails exactly for the QoS value that does not exist, for a PUBREC that is rejected,
  // and for a packet that is to be answered if the buffer or the network does not take four bytes.
  lemma CycleFailsExact(cfg: Config, packet: Bytes, link: Link)
    ensures CycleFails(cfg, packet, link) <==>
      || (ParsePublish(packet).Ok? && ParsePublish(packet).value.qos == 3)
      || (packet != [] && TypeOf(packet[0]) == PUBREC && ParseAck(packet).Malformed?)
      || (Demands(packet) && !(cfg.size >= 4 && link.up && AddsUp(link.writes, 4)))
  {
    hide Due, Demands, Answers, MessageOf, ParseAck, ParsePublish, AddsUp;
    DueAnswers(packet);
    MessageIs(packet);
    SentWholeExact(link.writes, 4, 0);
    if CycleAck(cfg, packet, link) != [] {
      assert CycleAck(cfg, packet, link)[0].Sent?;
    }
  }

  lemma MessageIs(packet: Bytes)
    ensures MessageOf(packet) == if ParsePublish(packet).Ok? then Some(ParsePublish(packet).value) else None
  {}

  // The packets received that are to be answered
  function Demanding(trace: seq<Event>): seq<Bytes> {
    if trace == [] then [] else
    var e := trace[|trace| - 1];
    Demanding(trace[..|trace| - 1]) + if e.Received? && Demands(e.packet) then [e.packet] else []
  }

  predicate AllAnswer(packets: seq<Bytes>, acks: seq<Bytes>) {
    |packets| == |acks| && forall k :: 0 <= k < |packets| ==> Answers(packets[k], acks[k])
  }

  lemma {:induction false} DueInOrder(t: seq<Event>)
    ensures AllAnswer(Demanding(t), DueAcks(t))
  {
    hide Due, Demands, Answers;
    if t != [] {
      DueInOrder(t[..|t| - 1]);
      if t[|t| - 1].Received? {
        DueAnswers(t[|t| - 1].packet);
      }
    }
  }

  // Over every run in which no cycle fails that has a packet to answer, the acknowledgements
  // that get out are the answers to those packets, one each and in order.
  lemma AnswersInOrder(cfg: Config, interval: nat, inputs: seq<Input>)
    requires forall i :: 0 <= i < |inputs| && inputs[i].Cycling? && Demands(inputs[i].packet) ==>
      !CycleFails(cfg, inputs[i].packet, inputs[i].link)
    ensures var t := Run(cfg, interval, inputs); AllAnswer(Demanding(t), Acks(t))
  {
    hide Due, Demands, Answers, CycleFails, Run, Acks, DueAcks, Demanding;
    forall i | 0 <= i < |inputs| && inputs[i].Cycling? && Due(inputs[i].packet).Some?
      ensures !CycleFails(cfg, inputs[i].packet, inputs[i].link)
    {
      DueAnswers(inputs[i].packet);
    }
    AcksInOrder(cfg, interval, inputs);
    DueInOrder(Run(cfg, interval, inputs));
  }

  // The bytes: packet id 7 on topic "a", with QoS 1 and 2, and the second and third step of the
  // latter
  lemma AckInputs(cfg: Config, link: Link)
    requires cfg.size >= 4 && link.up
    ensures CycleAck(cfg, [0x32, 5, 0, 1, 0x61, 0, 7], link) == [Sent([0x40, 2, 0, 7], TakenBy(link.writes, 4, 0))]
    ensures CycleAck(cfg, [0x34, 5, 0, 1, 0x61, 0, 7], link) == [Sent([0x50, 2, 0, 7], TakenBy(link.writes, 4, 0))]
    ensures CycleAck(cfg, [0x50, 2, 0, 7], link) == [Sent([0x62, 2, 0, 7], TakenBy(link.writes, 4, 0))]
    ensures PING == [0xC0, 0]
  {
    hide TakenBy, ParsePublish, ParseAck;
    PublishRead(0x32);
    PublishRead(0x34);
    ReceiptRead();
    assert AckPacket(PUBACK, 0, 7) == [0x40, 2, 0, 7] && AckPacket(PUBREC, 0, 7) == [0x50, 2, 0, 7];
    assert AckPacket(PUBREL, 0, 7) == [0x62, 2, 0, 7];
  }

  lemma PublishRead(h: Byte)
    requires h in {0x32, 0x34}
    ensures var m := MessageOf([h, 5, 0, 1, 0x61, 0, 7]);
      m.Some? && m.value.qos == (if h == 0x32 then 1 else 2) && m.value.id == Some(7) && m.value.topic == [0x61]
  {
    var buf: Bytes := [h, 5, 0, 1, 0x61, 0, 7];
    assert buf[4..5] == [0x61] && DecodeLength(buf[1..], 4) == Decoded(Complete, 5, 1);
    assert ReadInt(buf, 2) == 1 && ReadInt(buf, 5) == 7;
  }

  lemma ReceiptRead()
    ensures ParseAck([0x50, 2, 0, 7]) == Ok((PUBREC, false, 7)) && TypeOf(0x50) == PUBREC
  {
    var buf: Bytes := [0x50, 2, 0, 7];
    assert DecodeLength(buf[1..], 4) == Decoded(Complete, 2, 1) && ReadInt(buf, 2) == 7;
  }

  // ---- Packet ids ----

  function NextId(id: nat): nat {
    if id == MAX_PACKET_ID then 1 else id + 1
  }

  function IdAfter(id: nat, calls: nat): nat {
    if calls == 0 then id else NextId(IdAfter(id, calls - 1))
  }

  lemma {:induction false} IdAfterExact(id: nat, calls: nat)
    requires 1 <= id <= MAX_PACKET_ID
    ensures IdAfter(id, calls) == (id - 1 + calls) % MAX_PACKET_ID + 1
  {
    if calls > 0 {
      IdAfterExact(id, calls - 1);
      Successor(id - 1 + calls - 1);
    }
  }

  lemma Successor(n: nat)
    ensures (n + 1) % MAX_PACKET_ID == if n % MAX_PACKET_ID == MAX_PACKET_ID - 1 then 0 else n % MAX_PACKET_ID + 1
  {}

  // Two calls give the same packet id exactly if the number of calls between them is a
  // multiple of 65535.
  lemma IdsRepeat(id: nat, m: nat, n: nat)
    requires 1 <= id <= MAX_PACKET_ID && m <= n
    ensures 1 <= IdAfter(id, n) <= MAX_PACKET_ID
    ensures IdAfter(id, m) == IdAfter(id, n) <==> (n - m) % MAX_PACKET_ID == 0
  {
    IdAfterExact(id, m);
    IdAfterExact(id, n);
  }
}
