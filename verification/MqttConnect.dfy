/** CONNECT: src/libmqtt/MQTTConnectClient.c and src/libmqtt/MQTTConnectServer.c. */
module MqttConnect {
  import opened Common
  import opened MqttPacket
  import opened MqttPublish

  // MQTTPacket_connectData. The will is Some if willFlag is set.
  datatype Options = Options(version: Byte, clientId: MqttString, keepAlive: nat, cleanSession: Byte,
                             will: Option<WillOptions>, username: MqttString, password: MqttString)
  datatype WillOptions = WillOptions(topic: MqttString, message: MqttString, retained: Byte, qos: int)

  // What the packet says, and what the parser stores; a field that is None is left as it was.
  // The parser does not store the version.
  datatype Connect = Connect(clientId: Bytes, keepAlive: nat, cleanSession: bool, will: Option<Will>,
                             username: Option<Bytes>, password: Option<Bytes>)
  datatype Will = Will(topic: Bytes, message: Bytes, retained: bool, qos: Qos)

  // Two bits; the parser lets 3 pass.
  type Qos = n: int | 0 <= n < 4

  // ---- Writing ----

  const MQTT: Bytes := [77, 81, 84, 84]
  const MQISDP: Bytes := [77, 81, 73, 115, 100, 112]

  function Optional(s: MqttString): Option<Bytes> {
    if s.Present() then Some(s.Written()) else None
  }

  function ConnectOf(o: Options): Connect {
    Connect(o.clientId.Written(), o.keepAlive, o.cleanSession % 2 == 1,
            match o.will
            case None => None
            case Some(w) => Some(Will(w.topic.Written(), w.message.Written(), w.retained % 2 == 1, w.qos % 4)),
            Optional(o.username), Optional(o.password))
  }

  function Bit(b: bool): (n: nat) { if b then 1 else 0 }

  // MQTTConnectFlags
  function FlagsByte(username: nat, password: nat, retained: nat, qos: nat, will: nat, clean: nat): Byte
    requires username < 2 && password < 2 && retained < 2 && qos < 4 && will < 2 && clean < 2
  {
    128 * username + 64 * password + 32 * retained + 8 * qos + 4 * will + 2 * clean
  }

  function Flags(c: Connect): Byte
  {
    FlagsByte(Bit(c.username.Some?), Bit(c.password.Some?), Bit(c.will.Some? && c.will.value.retained),
              if c.will.Some? then c.will.value.qos else 0, Bit(c.will.Some?), Bit(c.cleanSession))
  }

  function OptionalBytes(s: Option<Bytes>): (b: Bytes)
    ensures |b| == if s.Some? then 2 + |s.value| else 0
  {
    if s.Some? then Prefixed(s.value) else []
  }

  function Topic(will: Option<Will>): Option<Bytes> { if will.Some? then Some(will.value.topic) else None }
  function WillMessage(will: Option<Will>): Option<Bytes> { if will.Some? then Some(will.value.message) else None }

  function Protocol(version: Byte): Bytes {
    if version == 4 then Prefixed(MQTT) + [4] else Prefixed(MQISDP) + [3]
  }

  function Strings(c: Connect): Bytes {
    Prefixed(c.clientId) + OptionalBytes(Topic(c.will)) + OptionalBytes(WillMessage(c.will))
    + OptionalBytes(c.username) + OptionalBytes(c.password)
  }

  function ConnectBody(version: Byte, c: Connect): Bytes
  {
    Protocol(version) + [Flags(c)] + Int16(c.keepAlive) + Strings(c)
  }

  // MQTTSerialize_connectLength
  function ConnectLength(o: Options): nat {
    var len := if o.version == 3 then 12 else if o.version == 4 then 10 else 0;
    len + o.clientId.StrLen() + 2
    + (if o.will.Some? then o.will.value.topic.StrLen() + 2 + o.will.value.message.StrLen() + 2 else 0)
    + (if o.username.Present() then o.username.StrLen() + 2 else 0)
    + if o.password.Present() then o.password.StrLen() + 2 else 0
  }

  predicate ConsistentStrings(o: Options) {
    && o.clientId.Consistent() && o.username.Consistent() && o.password.Consistent()
    && (o.will.Some? ==> o.will.value.topic.Consistent() && o.will.value.message.Consistent())
  }

  // The predicted remaining length is that of the body written exactly for the two versions
  // of the protocol; for any other version the body is twelve bytes longer.
  lemma ConnectLengthAgrees(o: Options)
    requires ConsistentStrings(o)
    ensures ConnectLength(o) == |ConnectBody(o.version, ConnectOf(o))| <==> o.version in {3, 4}
    ensures o.version !in {3, 4} ==> ConnectLength(o) + 12 == |ConnectBody(o.version, ConnectOf(o))|
  {
    StrLenAgrees(o.clientId);
    StrLenAgrees(o.username);
    StrLenAgrees(o.password);
    if o.will.Some? {
      StrLenAgrees(o.will.value.topic);
      StrLenAgrees(o.will.value.message);
    }
    BodySize(o.version, ConnectOf(o));
  }

  lemma BodySize(version: Byte, c: Connect)
    ensures |ConnectBody(version, c)| == (if version == 4 then 7 else 9) + 3 + 2 + |c.clientId|
      + (if c.will.Some? then 2 + |c.will.value.topic| + 2 + |c.will.value.message| else 0)
      + (if c.username.Some? then 2 + |c.username.value| else 0)
      + if c.password.Some? then 2 + |c.password.value| else 0
  {
    hide Flags, Prefixed, Int16, Strings, Protocol;
    ProtocolSize(version);
    StringParts(c, []);
    BodyParts(version, c);
  }

  lemma ProtocolSize(version: Byte)
    ensures |Protocol(version)| == if version == 4 then 7 else 9
  {}

  lemma BodyParts(version: Byte, c: Connect)
    ensures |ConnectBody(version, c)| == |Protocol(version)| + 3 + |Strings(c)|
  {}

  // MQTTSerialize_connect
  method SerializeConnect(buf: array<Byte>, buflen: nat, o: Options) returns (rc: int)
    requires buflen <= buf.Length
    requires o.version in {3, 4} && ConsistentStrings(o) && ConnectLength(o) < LENGTH_LIMIT
    modifies buf
    ensures PacketLen(ConnectLength(o)) > buflen ==> rc == BUFFER_TOO_SHORT && buf[..] == old(buf[..])
    ensures PacketLen(ConnectLength(o)) <= buflen ==>
      var packet := Frame(Header(CONNECT, 0, 0, 0), ConnectBody(o.version, ConnectOf(o)));
      rc == |packet| <= buflen && Filled(buf[..], old(buf[..]), packet)
  {
    hide Filled, EncodeLength, Header, Frame, ConnectBody, Flags, Strings, Protocol, MQTT, MQISDP, Optional;
    var len := ConnectLength(o);
    if PacketLen(len) > buflen {
      return BUFFER_TOO_SHORT;
    }
    ghost var was, c := buf[..], ConnectOf(o);
    ConnectLengthAgrees(o);
    PredictorExact(len);
    var h := Header(CONNECT, 0, 0, 0);
    var ptr := WriteHead(buf, h, len, was);
    ghost var head := [h] + EncodeLength(len);
    FrameUnfold(h, ConnectBody(o.version, c));
    ConnectParts(o.version, c, head);
    ptr := WriteProtocol(buf, ptr, o.version, was, head);
    var flags := FlagsOf(o);
    ptr := WriteChar(buf, ptr, flags, was, head + Protocol(o.version));
    ptr := WriteInt(buf, ptr, o.keepAlive, was, head + Protocol(o.version) + [Flags(c)]);
    rc := WriteStrings(buf, ptr, o, was, head + Protocol(o.version) + [Flags(c)] + Int16(o.keepAlive));
  }

  lemma ConnectParts(version: Byte, c: Connect, head: Bytes)
    ensures head + ConnectBody(version, c) == head + Protocol(version) + [Flags(c)] + Int16(c.keepAlive) + Strings(c)
    ensures |ConnectBody(version, c)| == |Protocol(version)| + 3 + |Strings(c)|
  {}

  method WriteProtocol(buf: array<Byte>, p: nat, version: Byte, ghost was: Bytes, ghost head: Bytes) returns (ptr: nat)
    requires Filled(buf[..], was, head) && p == |head| && p + |Protocol(version)| <= buf.Length
    modifies buf
    ensures ptr == p + |Protocol(version)| && Filled(buf[..], was, head + Protocol(version))
  {
    hide Filled, Prefixed, MQTT, MQISDP;
    if version == 4 {
      ptr := WriteCString(buf, p, MQTT, was, head);
      ptr := WriteChar(buf, ptr, 4, was, head + Prefixed(MQTT));
      assert head + (Prefixed(MQTT) + [4]) == head + Prefixed(MQTT) + [4];
    } else {
      ptr := WriteCString(buf, p, MQISDP, was, head);
      ptr := WriteChar(buf, ptr, 3, was, head + Prefixed(MQISDP));
      assert head + (Prefixed(MQISDP) + [3]) == head + Prefixed(MQISDP) + [3];
    }
  }

  // The flags, field by field
  method FlagsOf(o: Options) returns (all: Byte)
    ensures all == Flags(ConnectOf(o))
  {
    hide FlagsByte;
    var clean, will, qos, retained, username, password := o.cleanSession % 2, 0, 0, 0, 0, 0;
    if o.will.Some? {
      will := 1;
      qos := o.will.value.qos % 4;
      retained := o.will.value.retained % 2;
    }
    if o.username.Present() {
      username := 1;
    }
    if o.password.Present() {
      password := 1;
    }
    all := FlagsByte(username, password, retained, qos, will, clean);
  }

  method WriteStrings(buf: array<Byte>, p: nat, o: Options, ghost was: Bytes, ghost head: Bytes) returns (ptr: nat)
    requires Filled(buf[..], was, head) && p == |head| && p + |Strings(ConnectOf(o))| <= buf.Length
    modifies buf
    ensures ptr == p + |Strings(ConnectOf(o))| && Filled(buf[..], was, head + Strings(ConnectOf(o)))
  {
    hide Filled, Prefixed, OptionalBytes, Strings;
    ghost var c := ConnectOf(o);
    ghost var client, topic, message, username, password := Prefixed(c.clientId), OptionalBytes(Topic(c.will)),
      OptionalBytes(WillMessage(c.will)), OptionalBytes(c.username), OptionalBytes(c.password);
    StringParts(c, head);
    ptr := WriteMqttString(buf, p, o.clientId, was, head);
    if o.will.Some? {
      ptr := WriteOptional(buf, ptr, o.will.value.topic, true, was, head + client);
      ptr := WriteOptional(buf, ptr, o.will.value.message, true, was, head + client + topic);
    } else {
      NoString(head + client);
      assert head + client + topic + message == head + client;
    }
    ptr := WriteOptional(buf, ptr, o.username, o.username.Present(), was, head + client + topic + message);
    ptr := WriteOptional(buf, ptr, o.password, o.password.Present(), was, head + client + topic + message + username);
  }

  lemma NoString(head: Bytes)
    ensures OptionalBytes(None) == []
  {}

  lemma StringParts(c: Connect, head: Bytes)
    ensures var client, topic, message, username, password := Prefixed(c.clientId), OptionalBytes(Topic(c.will)),
      OptionalBytes(WillMessage(c.will)), OptionalBytes(c.username), OptionalBytes(c.password);
      && head + Strings(c) == head + client + topic + message + username + password
      && |Strings(c)| == |client| + |topic| + |message| + |username| + |password|
      && |client| == 2 + |c.clientId|
  {
    hide OptionalBytes;
    Associate(head, Prefixed(c.clientId), OptionalBytes(Topic(c.will)), OptionalBytes(WillMessage(c.will)),
              OptionalBytes(c.username), OptionalBytes(c.password));
  }

  lemma Associate(h: Bytes, a: Bytes, b: Bytes, c: Bytes, d: Bytes, e: Bytes)
    ensures h + (a + b + c + d + e) == h + a + b + c + d + e
  {}

  // A string whose flag is set
  method WriteOptional(buf: array<Byte>, p: nat, s: MqttString, wanted: bool, ghost was: Bytes, ghost head: Bytes)
    returns (ptr: nat)
    requires Filled(buf[..], was, head) && p == |head|
    requires p + |OptionalBytes(if wanted then Some(s.Written()) else None)| <= buf.Length
    modifies buf
    ensures ptr == p + |OptionalBytes(if wanted then Some(s.Written()) else None)|
    ensures Filled(buf[..], was, head + OptionalBytes(if wanted then Some(s.Written()) else None))
  {
    hide Filled, Prefixed;
    if wanted {
      ptr := WriteMqttString(buf, p, s, was, head);
    } else {
      assert head + [] == head;
      ptr := p;
    }
  }

  // ---- Reading ----

  // MQTTPacket_checkVersion: memcmp over the shorter of the two names
  predicate CheckVersion(protocol: Bytes, version: Byte) {
    || (version == 3 && AgreeOnCommon(protocol, MQISDP))
    || (version == 4 && AgreeOnCommon(protocol, MQTT))
  }

  predicate AgreeOnCommon(a: Bytes, b: Bytes) {
    var n := if |a| < |b| then |a| else |b|;
    a[..n] == b[..n]
  }

  // The version check accepts the right name, but also any name that starts or continues it.
  lemma CheckVersionExact(protocol: Bytes, version: Byte)
    ensures CheckVersion(protocol, version) <==>
      version in {3, 4} && var name := if version == 3 then MQISDP else MQTT; protocol <= name || name <= protocol
  {}

  datatype Outcome = Accepted(connect: Connect) | Rejected | Overrun

  // A string that is read if its flag is set, provided at least so many bytes are left
  datatype Field = Field(value: Option<Bytes>, next: nat) | Bad

  function ReadOptional(s: Bytes, at: nat, wanted: bool, least: nat): (f: Field)
    requires at <= |s|
    ensures f.Field? ==> at <= f.next <= |s| && f.value.Some? == wanted
  {
    if !wanted then Field(None, at)
    else if |s| - at < least then Bad else
    match ReadString(s, at, |s|)
    case None => Bad
    case Some(x) => Field(Some(x), at + 2 + |x|)
  }

  // Where the flags are: behind protocol name and version
  datatype Start = Fields(at: nat) | Unsupported | Beyond

  function StartOf(buf: Bytes): (r: Start)
    ensures r.Fields? ==> r.at <= |buf|
  {
    if buf == [] then Beyond
    else if TypeOf(buf[0]) != CONNECT then Unsupported else
    var d := DecodeLength(buf[1..], 4);
    var at := 1 + d.ReturnCode();
    if d.status.Starved? then Beyond
    else if at > |buf| then Unsupported else
    match ReadString(buf, at, |buf|)
    case None => Unsupported
    case Some(protocol) =>
      var p := at + 2 + |protocol|;
      if p >= |buf| then Beyond
      else if CheckVersion(protocol, buf[p]) then Fields(p + 1)
      else Unsupported
  }

  // The strings behind flags and keep-alive interval
  datatype StringsRead = StringsRead(clientId: Bytes, topic: Option<Bytes>, message: Option<Bytes>,
                                     username: Option<Bytes>, password: Option<Bytes>)

  function ParseStrings(s: Bytes, at: nat, will: bool, username: bool, password: bool): (r: Option<StringsRead>)
    requires at <= |s|
    ensures r.Some? ==> r.value.topic.Some? == r.value.message.Some? == will
  {
    match ReadOptional(s, at, true, 0)
    case Bad => None
    case Field(client, p1) =>
      match ReadOptional(s, p1, will, 0)
      case Bad => None
      case Field(topic, p2) =>
        match ReadOptional(s, p2, will, 0)
        case Bad => None
        case Field(message, p3) =>
          match ReadOptional(s, p3, username, 3)
          case Bad => None
          case Field(user, p4) =>
            if password && !username then None else
            match ReadOptional(s, p4, password, 3)
            case Bad => None
            case Field(pass, _) => Some(StringsRead(client.value, topic, message, user, pass))
  }

  function ParseConnect(buf: Bytes): Outcome {
    match StartOf(buf)
    case Beyond => Outcome.Overrun
    case Unsupported => Rejected
    case Fields(at) =>
      if at + 3 > |buf| then Outcome.Overrun else
      var f := buf[at];
      match ParseStrings(buf, at + 3, f / 4 % 2 == 1, f / 128 == 1, f / 64 % 2 == 1)
      case None => Rejected
      case Some(s) =>
        var will :=
          if s.topic.Some? then Some(Will(s.topic.value, s.message.value, f / 32 % 2 == 1, f / 8 % 4)) else None;
        Accepted(Connect(s.clientId, ReadInt(buf, at + 1), f / 2 % 2 == 1, will, s.username, s.password))
  }

  // MQTTDeserialize_connect. The frame ends where the buffer does, not where the remaining
  // length says.
  method DeserializeConnect(buf: Bytes) returns (r: Outcome)
    ensures r == ParseConnect(buf)
  {
    hide StartOf, ReadInt, ReadOptional;
    var start := FindFields(buf);
    if start.Beyond? {
      return Outcome.Overrun;
    }
    if start.Unsupported? {
      return Rejected;
    }
    var curdata := start.at;
    if curdata + 3 > |buf| {
      return Outcome.Overrun;
    }
    var flags := buf[curdata];
    var willFlag, hasUser, hasPass := flags / 4 % 2 == 1, flags / 128 == 1, flags / 64 % 2 == 1;
    var clientId := ReadOptional(buf, curdata + 3, true, 0);
    if clientId.Bad? {
      return Rejected;
    }
    var topic := ReadOptional(buf, clientId.next, willFlag, 0);
    if topic.Bad? {
      return Rejected;
    }
    var message := ReadOptional(buf, topic.next, willFlag, 0);
    if message.Bad? {
      return Rejected;
    }
    var username := ReadOptional(buf, message.next, hasUser, 3);
    if username.Bad? {
      return Rejected;
    }
    if hasPass && !hasUser {
      return Rejected;
    }
    var password := ReadOptional(buf, username.next, hasPass, 3);
    if password.Bad? {
      return Rejected;
    }
    var will :=
      if willFlag then Some(Will(topic.value.value, message.value.value, flags / 32 % 2 == 1, flags / 8 % 4)) else None;
    r := Accepted(Connect(clientId.value.value, ReadInt(buf, curdata + 1), flags / 2 % 2 == 1, will,
      username.value, password.value));
  }

  method FindFields(buf: Bytes) returns (start: Start)
    ensures start == StartOf(buf)
  {
    hide DecodeLength, ReadString, CheckVersion;
    if |buf| == 0 {
      return Beyond;
    }
    if TypeOf(buf[0]) != CONNECT {
      return Unsupported;
    }
    var d := DecodeBuf(buf, 1);
    var curdata := 1 + d.ReturnCode();
    if d.status.Starved? {
      return Beyond;
    }
    if curdata > |buf| {
      return Unsupported;
    }
    var protocol := ReadString(buf, curdata, |buf|);
    if protocol.None? {
      return Unsupported;
    }
    curdata := curdata + 2 + |protocol.value|;
    if curdata >= |buf| {
      return Beyond;
    }
    var version := buf[curdata];
    start := if CheckVersion(protocol.value, version) then Fields(curdata + 1) else Unsupported;
  }

  // ---- The round trip ----

  lemma FlagFields(u: nat, p: nat, r: nat, q: nat, w: nat, c: nat)
    requires u < 2 && p < 2 && r < 2 && q < 4 && w < 2 && c < 2
    ensures var f := FlagsByte(u, p, r, q, w, c);
      f / 128 == u && f / 64 % 2 == p && f / 32 % 2 == r && f / 8 % 4 == q && f / 4 % 2 == w && f / 2 % 2 == c
  {
    var f := FlagsByte(u, p, r, q, w, c);
    assert f / 2 == 64 * u + 32 * p + 16 * r + 4 * q + 2 * w + c;
    assert f / 4 == 32 * u + 16 * p + 8 * r + 2 * q + w;
    assert f / 8 == 16 * u + 8 * p + 4 * r + q;
    assert f / 32 == 4 * u + 2 * p + r;
    assert f / 64 == 2 * u + p;
  }

  predicate Sized(s: Option<Bytes>) {
    s.Some? ==> |s.value| < 0x1_0000
  }

  predicate SizedStrings(c: Connect) {
    && |c.clientId| < 0x1_0000 && Sized(Topic(c.will)) && Sized(WillMessage(c.will))
    && Sized(c.username) && Sized(c.password)
  }

  // When the parser takes the user name and password of a packet
  predicate AcceptableCredentials(username: Option<Bytes>, password: Option<Bytes>) {
    && (password.Some? ==> username.Some? && password.value != [])
    && (username.Some? && password.None? ==> username.value != [])
  }

  lemma OptionalRoundTrip(prefix: Bytes, x: Option<Bytes>, suffix: Bytes, least: nat)
    requires Sized(x)
    ensures ReadOptional(prefix + OptionalBytes(x) + suffix, |prefix|, x.Some?, least)
      == if x.Some? && 2 + |x.value| + |suffix| < least then Bad else Field(x, |prefix + OptionalBytes(x)|)
  {
    hide ReadString, Prefixed;
    if x.Some? {
      PrefixedSize(x.value);
      ReadPrefixed(prefix, x.value, suffix, |prefix + Prefixed(x.value) + suffix|);
    }
  }

  lemma PrefixedSize(x: Bytes)
    ensures |Prefixed(x)| == 2 + |x|
  {}

  // The strings are read back exactly when the credentials are acceptable.
  lemma StringsRoundTrip(head: Bytes, c: Connect)
    requires SizedStrings(c)
    ensures ParseStrings(head + Strings(c), |head|, c.will.Some?, c.username.Some?, c.password.Some?)
      == if AcceptableCredentials(c.username, c.password)
         then Some(StringsRead(c.clientId, Topic(c.will), WillMessage(c.will), c.username, c.password))
         else None
  {
    StringParts(c, head);
    FieldsInTurn(head, Some(c.clientId), Topic(c.will), WillMessage(c.will), c.username, c.password);
  }

  lemma FieldsInTurn(h: Bytes, a: Option<Bytes>, b: Option<Bytes>, c: Option<Bytes>, d: Option<Bytes>, e: Option<Bytes>)
    requires a.Some? && b.Some? == c.Some?
    requires Sized(a) && Sized(b) && Sized(c) && Sized(d) && Sized(e)
    ensures var s := h + OptionalBytes(a) + OptionalBytes(b) + OptionalBytes(c) + OptionalBytes(d) + OptionalBytes(e);
      ParseStrings(s, |h|, b.Some?, d.Some?, e.Some?)
      == if AcceptableCredentials(d, e) then Some(StringsRead(a.value, b, c, d, e)) else None
  {
    hide OptionalBytes, ReadOptional, Sized;
    var a', b', c', d', e' := OptionalBytes(a), OptionalBytes(b), OptionalBytes(c), OptionalBytes(d), OptionalBytes(e);
    FourSplits(h, a', b', c', d', e');
    OptionalRoundTrip(h, a, b' + c' + d' + e', 0);
    OptionalRoundTrip(h + a', b, c' + d' + e', 0);
    OptionalRoundTrip(h + a' + b', c, d' + e', 0);
    OptionalRoundTrip(h + a' + b' + c', d, e', 3);
    OptionalRoundTrip(h + a' + b' + c' + d', e, [], 3);
    OptionalSize(e);
  }

  lemma OptionalSize(x: Option<Bytes>)
    ensures |OptionalBytes(x)| == if x.Some? then 2 + |x.value| else 0
  {}

  lemma FourSplits(h: Bytes, a: Bytes, b: Bytes, c: Bytes, d: Bytes, e: Bytes)
    ensures h + a + b + c + d + e == h + a + (b + c + d + e)
    ensures h + a + b + c + d + e == h + a + b + (c + d + e)
    ensures h + a + b + c + d + e == h + a + b + c + (d + e)
    ensures h + a + b + c + d + e == h + a + b + c + d + e + []
  {}

  // Every CONNECT packet of either version is accepted exactly if its user name and password
  // are acceptable, and then every field but the version is recovered.
  lemma ConnectRoundTrip(version: Byte, c: Connect)
    requires version in {3, 4} && c.keepAlive < 0x1_0000 && SizedStrings(c)
    ensures ParseConnect(Frame(Header(CONNECT, 0, 0, 0), ConnectBody(version, c)))
      == if AcceptableCredentials(c.username, c.password) then Accepted(c) else Rejected
  {
    hide Header, Frame, EncodeLength, ConnectBody, Flags, Strings, Protocol, StartOf, ParseStrings, ReadInt;
    var h := Header(CONNECT, 0, 0, 0);
    HeaderFields(CONNECT, 0, 0, 0);
    SmallBody(version, c);
    var head := [h] + EncodeLength(|ConnectBody(version, c)|);
    FrameUnfold(h, ConnectBody(version, c));
    ConnectParts(version, c, head);
    StartFound(h, version, c);
    var front := head + Protocol(version);
    FlagsRead(c);
    StringsRoundTrip(front + [Flags(c)] + Int16(c.keepAlive), c);
    AtFlags(front, Flags(c), c.keepAlive, Strings(c));
  }

  lemma AtFlags(front: Bytes, f: Byte, keepAlive: nat, rest: Bytes)
    requires keepAlive < 0x1_0000
    ensures var s := front + [f] + Int16(keepAlive) + rest;
      s[|front|] == f && ReadInt(s, |front| + 1) == keepAlive && |front + [f] + Int16(keepAlive)| == |front| + 3 <= |s|
  {}

  lemma FlagsRead(c: Connect)
    ensures var f := Flags(c);
      && f / 128 == Bit(c.username.Some?) && f / 64 % 2 == Bit(c.password.Some?) && f / 4 % 2 == Bit(c.will.Some?)
      && f / 2 % 2 == Bit(c.cleanSession)
      && (c.will.Some? ==> f / 32 % 2 == Bit(c.will.value.retained) && f / 8 % 4 == c.will.value.qos)
  {
    hide FlagsByte;
    FlagFields(Bit(c.username.Some?), Bit(c.password.Some?), Bit(c.will.Some? && c.will.value.retained),
               if c.will.Some? then c.will.value.qos else 0, Bit(c.will.Some?), Bit(c.cleanSession));
  }

  lemma SmallBody(version: Byte, c: Connect)
    requires SizedStrings(c)
    ensures |ConnectBody(version, c)| < LENGTH_LIMIT
  {
    BodySize(version, c);
  }

  // Protocol name and version pass the check, and the flags follow them.
  lemma StartFound(h: Byte, version: Byte, c: Connect)
    requires version in {3, 4} && TypeOf(h) == CONNECT
    requires |ConnectBody(version, c)| < LENGTH_LIMIT
    ensures StartOf(Frame(h, ConnectBody(version, c)))
      == Fields(|[h] + EncodeLength(|ConnectBody(version, c)|) + Protocol(version)|)
  {
    hide Frame, EncodeLength, ConnectBody, Flags, Strings, Int16, ReadString, DecodeLength, TypeOf, MQTT,
      MQISDP, Prefixed, CheckVersion, StartOf;
    var body := ConnectBody(version, c);
    var name := if version == 4 then MQTT else MQISDP;
    var head, rest := [h] + EncodeLength(|body|), [Flags(c)] + Int16(c.keepAlive) + Strings(c);
    BodyStart(version, c);
    NameAccepted(version);
    FrameUnfold(h, body);
    LengthRoundTrip(|body|, body);
    FrameTail(h, EncodeLength(|body|), Prefixed(name), [version] + rest);
    ReadPrefixed(head, name, [version] + rest, |head + Prefixed(name) + ([version] + rest)|);
    assert ([version] + rest)[0] == version;
    ParsedStart(Frame(h, body), |head|, name);
  }

  lemma ParsedStart(s: Bytes, at: nat, protocol: Bytes)
    requires s != [] && TypeOf(s[0]) == CONNECT && at <= |s|
    requires DecodeLength(s[1..], 4).status.Complete? && at == 1 + DecodeLength(s[1..], 4).used
    requires ReadString(s, at, |s|) == Some(protocol)
    requires at + 2 + |protocol| < |s| && CheckVersion(protocol, s[at + 2 + |protocol|])
    ensures StartOf(s) == Fields(at + 2 + |protocol| + 1)
  {
    hide DecodeLength, ReadString, CheckVersion;
  }

  lemma FrameTail(h: Byte, length: Bytes, name: Bytes, rest: Bytes)
    ensures var s := [h] + length + (name + rest);
      && s[1..] == length + (name + rest) && s[0] == h
      && s == [h] + length + name + rest
      && (rest != [] ==> s[|[h] + length + name|] == rest[0])
  {}

  lemma BodyStart(version: Byte, c: Connect)
    requires version in {3, 4}
    ensures var name := if version == 4 then MQTT else MQISDP;
      ConnectBody(version, c) == Prefixed(name) + ([version] + ([Flags(c)] + Int16(c.keepAlive) + Strings(c)))
  {}

  lemma NameAccepted(version: Byte)
    requires version in {3, 4}
    ensures var name := if version == 4 then MQTT else MQISDP;
      && |name| < 0x1_0000 && |Prefixed(name)| == 2 + |name| && CheckVersion(name, version)
      && Protocol(version) == Prefixed(name) + [version]
  {}

  // What the serializer writes for given options
  lemma OptionsRoundTrip(o: Options)
    requires o.version in {3, 4} && o.keepAlive < 0x1_0000 && SizedStrings(ConnectOf(o))
    ensures ParseConnect(Frame(Header(CONNECT, 0, 0, 0), ConnectBody(o.version, ConnectOf(o))))
      == if AcceptableCredentials(Optional(o.username), Optional(o.password)) then Accepted(ConnectOf(o)) else Rejected
  {
    ConnectRoundTrip(o.version, ConnectOf(o));
  }

  // A CONNECT with all its strings, byte by byte: section 3.1 of MQTT 3.1.1
  lemma ConnectBytes()
    ensures var c := Connect([99], 60, true, Some(Will([116], [109], false, 2)), Some([117]), Some([112]));
      && Header(CONNECT, 0, 0, 0) == 0x10
      && ConnectBody(4, c) == [0, 4, 77, 81, 84, 84, 4, 0xD6, 0, 60]
        + [0, 1, 99, 0, 1, 116, 0, 1, 109, 0, 1, 117, 0, 1, 112]
      && Protocol(3) == [0, 6, 77, 81, 73, 115, 100, 112, 3]
  {
    var c := Connect([99], 60, true, Some(Will([116], [109], false, 2)), Some([117]), Some([112]));
    assert Strings(c) == [0, 1, 99, 0, 1, 116, 0, 1, 109, 0, 1, 117, 0, 1, 112];
    assert Protocol(4) + [Flags(c)] + Int16(60) == [0, 4, 77, 81, 84, 84, 4, 0xD6, 0, 60];
  }
}
