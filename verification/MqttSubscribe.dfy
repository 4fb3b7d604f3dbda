/** SUBSCRIBE: src/libmqtt/MQTTSubscribeClient.c and src/libmqtt/MQTTSubscribeServer.c. */
module MqttSubscribe {
  import opened Common
  import opened MqttPacket
  import opened MqttPublish

  // One topic filter with its requested QoS. The C functions take two parallel arrays.
  datatype Request = Request(filter: MqttString, qos: int)
  datatype Entry = Entry(filter: Bytes, qos: int)

  // ---- Writing ----

  // A request with the one string that is written for it
  function EntryOf(r: Request): Entry {
    Entry(r.filter.Written(), r.qos)
  }

  function EntriesOf(requests: seq<Request>): (entries: seq<Entry>)
    ensures |entries| == |requests|
  {
    if requests == [] then [] else [EntryOf(requests[0])] + EntriesOf(requests[1..])
  }

  function EntryBytes(e: Entry): (b: Bytes)
    ensures |b| == 3 + |e.filter|
  {
    Prefixed(e.filter) + [e.qos % 256]
  }

  function EntriesBytes(entries: seq<Entry>): Bytes {
    if entries == [] then [] else EntryBytes(entries[0]) + EntriesBytes(entries[1..])
  }

  function SubscribeBody(id: nat, entries: seq<Entry>): (b: Bytes)
    ensures |b| == 2 + |EntriesBytes(entries)|
  {
    Int16(id) + EntriesBytes(entries)
  }

  // No filter has two representations of different lengths.
  predicate AllConsistent(requests: seq<Request>) {
    forall i :: 0 <= i < |requests| ==> requests[i].filter.Consistent()
  }

  // MQTTSerialize_subscribeLength
  method SubscribeLength(requests: seq<Request>) returns (len: nat)
    ensures len == PredictedLength(requests)
  {
    len := 2;
    ghost var rest := requests;
    for i := 0 to |requests|
      invariant rest == requests[i..]
      invariant PredictedLength(requests) == len - 2 + PredictedLength(rest)
    {
      len := len + 2 + requests[i].filter.StrLen() + 1;
      rest := rest[1..];
    }
  }

  function PredictedLength(requests: seq<Request>): nat {
    if requests == [] then 2 else PredictedLength(requests[1..]) + 2 + requests[0].filter.StrLen() + 1
  }

  // The predicted remaining length is that of the body written.
  lemma {:induction false} LengthAgrees(requests: seq<Request>, id: nat)
    requires AllConsistent(requests)
    ensures PredictedLength(requests) == |SubscribeBody(id, EntriesOf(requests))|
  {
    if requests != [] {
      LengthAgrees(requests[1..], id);
      StrLenAgrees(requests[0].filter);
      assert EntriesOf(requests)[1..] == EntriesOf(requests[1..]);
    }
  }

  // MQTTSerialize_subscribe
  method SerializeSubscribe(buf: array<Byte>, buflen: nat, dup: Byte, id: nat, requests: seq<Request>)
    returns (rc: int)
    requires buflen <= buf.Length
    requires AllConsistent(requests) && PredictedLength(requests) < LENGTH_LIMIT
    modifies buf
    ensures PacketLen(PredictedLength(requests)) > buflen ==> rc == BUFFER_TOO_SHORT && buf[..] == old(buf[..])
    ensures PacketLen(PredictedLength(requests)) <= buflen ==>
      var packet := Frame(Header(SUBSCRIBE, dup, 1, 0), SubscribeBody(id, EntriesOf(requests)));
      rc == |packet| <= buflen && Filled(buf[..], old(buf[..]), packet)
  {
    hide Filled, EncodeLength, Header, Frame;
    var remLen := SubscribeLength(requests);
    if PacketLen(remLen) > buflen {
      return BUFFER_TOO_SHORT;
    }
    ghost var was, list := buf[..], EntriesBytes(EntriesOf(requests));
    LengthAgrees(requests, id);
    PredictorExact(remLen);
    var h := Header(SUBSCRIBE, dup, 1, 0);
    var ptr := WriteHead(buf, h, remLen, was);
    ghost var head := [h] + EncodeLength(remLen);
    ptr := WriteInt(buf, ptr, id, was, head);
    FrameUnfold(h, SubscribeBody(id, EntriesOf(requests)));
    assert head + (Int16(id) + list) == head + Int16(id) + list;
    rc := WriteEntries(buf, ptr, requests, was, head + Int16(id));
  }

  method WriteEntries(buf: array<Byte>, ptr: nat, requests: seq<Request>, ghost was: Bytes, ghost head: Bytes)
    returns (ptr': nat)
    requires Filled(buf[..], was, head) && ptr == |head|
    requires ptr + |EntriesBytes(EntriesOf(requests))| <= buf.Length
    modifies buf
    ensures ptr' == ptr + |EntriesBytes(EntriesOf(requests))|
    ensures Filled(buf[..], was, head + EntriesBytes(EntriesOf(requests)))
  {
    ptr' := ptr;
    ghost var done, rest := head, EntriesBytes(EntriesOf(requests));
    for i := 0 to |requests|
      invariant rest == EntriesBytes(EntriesOf(requests[i..]))
      invariant head + EntriesBytes(EntriesOf(requests)) == done + rest
      invariant ptr' == |done| && Filled(buf[..], was, done)
    {
      ghost var filter := Prefixed(requests[i].filter.Written());
      var qos: Byte := requests[i].qos % 256;
      NextEntry(requests, i, done);
      hide *;
      ptr' := WriteMqttString(buf, ptr', requests[i].filter, was, done);
      ptr' := WriteChar(buf, ptr', qos, was, done + filter);
      done := done + filter + [qos];
      rest := EntriesBytes(EntriesOf(requests[i + 1..]));
    }
    assert rest == [] && done + rest == done;
  }

  lemma NextEntry(requests: seq<Request>, i: nat, done: Bytes)
    requires i < |requests|
    ensures var r := requests[i];
      done + EntriesBytes(EntriesOf(requests[i..]))
      == done + Prefixed(r.filter.Written()) + [r.qos % 256] + EntriesBytes(EntriesOf(requests[i + 1..]))
  {}

  // ---- Reading ----

  datatype Subscription = Subscription(dup: bool, id: nat, entries: seq<Entry>)

  // A byte as a char, which is signed or not as the compiler has it
  function CharOf(b: Byte, signed: bool): int {
    if signed && b >= 128 then b - 256 else b
  }

  // What the low byte of the QoS comes back as
  function ReadBack(e: Entry, signed: bool): Entry {
    Entry(e.filter, CharOf(e.qos % 256, signed))
  }

  function AllReadBack(entries: seq<Entry>, signed: bool): (r: seq<Entry>)
    ensures |r| == |entries|
  {
    if entries == [] then [] else [ReadBack(entries[0], signed)] + AllReadBack(entries[1..], signed)
  }

  // A list comes back unchanged exactly if every QoS value is one of a char.
  lemma {:induction false} ReadBackExact(entries: seq<Entry>, signed: bool)
    ensures AllReadBack(entries, signed) == entries <==>
      forall i :: 0 <= i < |entries| ==> if signed then -128 <= entries[i].qos < 128 else 0 <= entries[i].qos < 256
  {
    if entries != [] {
      ReadBackExact(entries[1..], signed);
      assert entries == [entries[0]] + entries[1..];
      OneReadBack(entries[0], signed);
      var back := AllReadBack(entries, signed);
      assert back == entries ==> back[1..] == entries[1..] && back[0] == entries[0];
      assert back[1..] == AllReadBack(entries[1..], signed);
    }
  }

  lemma OneReadBack(e: Entry, signed: bool)
    ensures ReadBack(e, signed) == e <==> if signed then -128 <= e.qos < 128 else 0 <= e.qos < 256
  {}

  // What the loop finds at index at of a list that ends at end, with count entries stored and so
  // much room for them: the end; the output arrays full, which the code does not look at and
  // writes past; a string that does not fit, or no QoS byte behind it; a read outside the
  // buffer; or an entry
  datatype Found = Done | Full | Broken | Beyond | Next(size: nat)

  function Look(buf: Bytes, at: nat, end: nat, count: nat, room: nat): (f: Found)
    requires at <= |buf|
    ensures f.Next? ==> at + 3 + f.size <= end && at + 3 + f.size <= |buf|
  {
    if at >= end then Done
    else if count >= room then Full
    else if end < at + 2 then Broken
    else if at + 2 > |buf| then Beyond
    else
      var p := at + 2 + ReadInt(buf, at);
      if p >= end then Broken else if p >= |buf| then Beyond else Next(ReadInt(buf, at))
  }

  // The entry there, with the QoS byte as a char
  function EntryRead(buf: Bytes, at: nat, size: nat, signed: bool): Entry
    requires at + 3 + size <= |buf|
  {
    Entry(buf[at + 2..at + 2 + size], CharOf(buf[at + 2 + size], signed))
  }

  // Reads entries from at to end behind those already read.
  function ParseEntries(buf: Bytes, at: nat, end: nat, read: seq<Entry>, room: nat, rc: nat, signed: bool)
    : (r: Parsed<seq<Entry>>)
    requires at <= |buf|
    ensures !r.WrongType? && (r.Malformed? ==> r.rc == rc)
    decreases end - at
  {
    match Look(buf, at, end, |read|, room)
    case Next(size) =>
      ParseEntries(buf, at + 3 + size, end, read + [EntryRead(buf, at, size, signed)], room, rc, signed)
    case other => Stopped(other, read, rc)
  }

  // How the loop ends where no entry follows
  function Stopped(f: Found, read: seq<Entry>, rc: nat): Parsed<seq<Entry>>
    requires !f.Next?
  {
    match f
    case Done => Ok(read)
    case Full => Overflow
    case Broken => Malformed(rc)
    case Beyond => Overrun
  }

  function ParseSubscribe(buf: Bytes, room: nat, signed: bool): Parsed<Subscription> {
    if buf == [] then Overrun
    else if TypeOf(buf[0]) != SUBSCRIBE then WrongType else
    match FrameOf(buf)
    case Unframed => Overrun
    case Framing(at, end, rc) =>
      if at + 2 > |buf| then Overrun else
      match ParseEntries(buf, at + 2, end, [], room, rc, signed)
      case Ok(entries) => Ok(Subscription(DupOf(buf[0]) == 1, ReadInt(buf, at), entries))
      case WrongType => WrongType
      case Malformed(rc) => Malformed(rc)
      case Overrun => Overrun
      case Overflow => Overflow
  }

  // A rejected SUBSCRIBE is nevertheless reported with the success code exactly when its
  // remaining-length field is one byte long.
  lemma RejectedWithSuccessCode(buf: Bytes, room: nat, signed: bool)
    requires ParseSubscribe(buf, room, signed).Malformed?
    ensures ParseSubscribe(buf, room, signed).rc == 1 <==> buf[1] < 128
  {
    ParseCode(buf, room, signed);
    OneByteField(buf);
  }

  lemma ParseCode(buf: Bytes, room: nat, signed: bool)
    requires ParseSubscribe(buf, room, signed).Malformed?
    ensures FrameOf(buf).Framing? && ParseSubscribe(buf, room, signed).rc == FrameOf(buf).rc
  {
    hide DecodeLength;
  }

  lemma OneByteField(buf: Bytes)
    requires FrameOf(buf).Framing?
    ensures buf[1..] != [] && (FrameOf(buf).rc == 1 <==> buf[1] < 128)
  {
    UsedSome(buf[1..], 4);
  }

  // ---- The parser in place ----

  // Entries laid out from at on, before end
  predicate LaidOut(buf: Bytes, at: nat, end: nat, done: seq<Entry>) {
    var p := at + |EntriesBytes(done)|;
    && Short(done) && p <= |buf| && (done == [] || p <= end)
    && buf[at..p] == EntriesBytes(done)
  }

  predicate Short(entries: seq<Entry>) {
    forall i :: 0 <= i < |entries| ==> |entries[i].filter| < 0x1_0000
  }

  // MQTTDeserialize_subscribe fills the array; stored is the count it stores, if it gets there.
  method DeserializeSubscribe(entries: array<Entry>, buf: Bytes, signed: bool)
    returns (r: Parsed<(bool, nat, nat)>, stored: Option<nat>)
    modifies entries
    ensures match ParseSubscribe(buf, entries.Length, signed) {
      case Ok(s) => |s.entries| <= entries.Length && entries[..|s.entries|] == s.entries
        && r == Ok((s.dup, s.id, |s.entries|))
      case WrongType => r == WrongType
      case Malformed(rc) => r == Malformed(rc)
      case Overrun => r == Overrun
      case Overflow => r == Overflow
    }
    ensures match stored {
      case None => entries[..] == old(entries[..])
      case Some(count) =>
        && FrameOf(buf).Framing? && FrameOf(buf).at + 2 <= |buf| && count <= entries.Length
        && StoredAll(entries[..count], buf, FrameOf(buf).at + 2, FrameOf(buf).end, entries.Length, signed)
    }
  {
    hide FrameOf, ReadInt, ParseEntries, StoredAll;
    stored := None;
    if |buf| == 0 {
      return Overrun, None;
    }
    var header := buf[0];
    if TypeOf(header) != SUBSCRIBE {
      return WrongType, None;
    }
    var frame := ReadFrame(buf);
    if frame.Unframed? {
      return Overrun, None;
    }
    var curdata, enddata, rc := frame.at, frame.end, frame.rc;
    if curdata + 2 > |buf| {
      return Overrun, None;
    }
    var id := ReadInt(buf, curdata);
    var list, count := FillEntries(entries, buf, curdata + 2, enddata, rc, signed);
    stored := Some(count);
    match list
    case Ok(_) => r := Ok((DupOf(header) == 1, id, count));
    case WrongType => r := WrongType;
    case Malformed(rc) => r := Malformed(rc);
    case Overrun => r := Overrun;
    case Overflow => r := Overflow;
  }

  // The entries stored are those laid out from at on, up to the first place where none follows.
  ghost predicate StoredAll(stored: seq<Entry>, buf: Bytes, at: nat, end: nat, room: nat, signed: bool) {
    exists done :: StoredOf(stored, done, buf, at, end, room, signed)
  }

  predicate StoredOf(stored: seq<Entry>, done: seq<Entry>, buf: Bytes, at: nat, end: nat, room: nat, signed: bool) {
    && LaidOut(buf, at, end, done) && stored == AllReadBack(done, signed) && |done| <= room
    && !Look(buf, at + |EntriesBytes(done)|, end, |done|, room).Next?
  }

  // The loop of MQTTDeserialize_subscribe
  method FillEntries(entries: array<Entry>, buf: Bytes, at: nat, enddata: nat, rc: nat, signed: bool)
    returns (r: Parsed<nat>, count: nat)
    requires at <= |buf|
    modifies entries
    ensures count <= entries.Length && StoredAll(entries[..count], buf, at, enddata, entries.Length, signed)
    ensures match ParseEntries(buf, at, enddata, [], entries.Length, rc, signed) {
      case Ok(s) => |s| == count && entries[..|s|] == s && r == Ok(|s|)
      case WrongType => r == WrongType
      case Malformed(rc) => r == Malformed(rc)
      case Overrun => r == Overrun
      case Overflow => r == Overflow
    }
  {
    hide ReadInt, LaidOut, Look, AllReadBack, EntriesBytes;
    var curdata := at;
    count := 0;
    ghost var whole, read, done := ParseEntries(buf, at, enddata, [], entries.Length, rc, signed), [], [];
    NothingLaidOut(buf, at, enddata, signed);
    var found := Look(buf, curdata, enddata, count, entries.Length);
    while found.Next?
      invariant curdata <= |buf| && count == |read| == |done| <= entries.Length && entries[..count] == read
      invariant whole == ParseEntries(buf, curdata, enddata, read, entries.Length, rc, signed)
      invariant LaidOut(buf, at, enddata, done) && curdata == at + |EntriesBytes(done)|
        && read == AllReadBack(done, signed)
      invariant found == Look(buf, curdata, enddata, count, entries.Length)
      decreases enddata - curdata
    {
      RoomLeft(buf, curdata, enddata, count, entries.Length);
      var e := EntryRead(buf, curdata, found.size, signed);
      Store(entries, count, e, read);
      done := EntryLaidOut(buf, at, enddata, done, found.size, signed);
      read := read + [e];
      curdata := curdata + 3 + found.size;
      count := count + 1;
      found := Look(buf, curdata, enddata, count, entries.Length);
    }
    assert StoredOf(entries[..count], done, buf, at, enddata, entries.Length, signed);
    match found
    case Done => r := Ok(count);
    case Full => r := Overflow;
    case Broken => r := Malformed(rc);
    case Beyond => r := Overrun;
  }

  lemma RoomLeft(buf: Bytes, at: nat, end: nat, count: nat, room: nat)
    requires at <= |buf| && Look(buf, at, end, count, room).Next?
    ensures var size := Look(buf, at, end, count, room).size;
      count < room && at + 3 + size <= |buf| && at + 3 + size <= end && ReadInt(buf, at) == size
  {
    hide ReadInt;
  }

  method Store(entries: array<Entry>, count: nat, e: Entry, ghost read: seq<Entry>)
    requires count < entries.Length && entries[..count] == read
    modifies entries
    ensures entries[..count + 1] == read + [e]
  {
    entries[count] := e;
  }

  // ---- The parser reads what is laid out ----

  lemma NothingLaidOut(buf: Bytes, at: nat, end: nat, signed: bool)
    requires at <= |buf|
    ensures LaidOut(buf, at, end, []) && EntriesBytes([]) == [] && AllReadBack([], signed) == []
  {
    assert buf[at..at] == [];
  }

  lemma {:induction false} OneMoreEntry(done: seq<Entry>, e: Entry, signed: bool)
    ensures EntriesBytes(done + [e]) == EntriesBytes(done) + EntryBytes(e)
    ensures AllReadBack(done + [e], signed) == AllReadBack(done, signed) + [ReadBack(e, signed)]
  {
    hide EntryBytes, ReadBack;
    if done == [] {
      assert [] + [e] == [e] && [e][1..] == [] && EntryBytes(e) + [] == EntryBytes(e);
    } else {
      OneMoreEntry(done[1..], e, signed);
      assert (done + [e])[1..] == done[1..] + [e] && (done + [e])[0] == done[0];
      assert EntryBytes(done[0]) + EntriesBytes(done[1..]) + EntryBytes(e)
        == EntryBytes(done[0]) + (EntriesBytes(done[1..]) + EntryBytes(e));
    }
  }

  // An entry that was read is laid out there.
  lemma FoundEntry(buf: Bytes, at: nat, e: Entry)
    requires at + 3 + |e.filter| <= |buf| && ReadInt(buf, at) == |e.filter|
    requires e.filter == buf[at + 2..at + 2 + |e.filter|] && e.qos == buf[at + 2 + |e.filter|] as int
    ensures buf[at..at + 3 + |e.filter|] == EntryBytes(e) && |e.filter| < 0x1_0000
  {
    hide Int16;
    var n := |e.filter|;
    IntWritten(buf[at], buf[at + 1]);
    Joined(buf, at, at + 2, at + 2 + n);
    Joined(buf, at, at + 2 + n, at + 3 + n);
    assert buf[at..at + 2] == [buf[at], buf[at + 1]] && buf[at + 2 + n..at + 3 + n] == [e.qos % 256];
  }

  lemma IntWritten(high: Byte, low: Byte)
    ensures Int16(256 * (high as int) + low as int) == [high, low]
  {}

  lemma Joined(s: Bytes, i: nat, j: nat, k: nat)
    requires i <= j <= k <= |s|
    ensures s[i..j] + s[j..k] == s[i..k]
  {}

  // The entry that follows those laid out makes one more.
  lemma EntryLaidOut(buf: Bytes, at: nat, end: nat, done: seq<Entry>, size: nat, signed: bool)
    returns (more: seq<Entry>)
    requires LaidOut(buf, at, end, done)
    requires var p := at + |EntriesBytes(done)|; p + 3 + size <= |buf| && p + 3 + size <= end && ReadInt(buf, p) == size
    ensures LaidOut(buf, at, end, more) && |more| == |done| + 1
    ensures var p := at + |EntriesBytes(done)|;
      && at + |EntriesBytes(more)| == p + 3 + size
      && AllReadBack(more, signed) == AllReadBack(done, signed) + [EntryRead(buf, p, size, signed)]
  {
    hide EntryBytes, EntriesBytes, ReadInt, AllReadBack, ReadBack, CharOf;
    var p := at + |EntriesBytes(done)|;
    var e := Entry(buf[p + 2..p + 2 + size], buf[p + 2 + size]);
    FoundEntry(buf, p, e);
    more := done + [e];
    OneMoreEntry(done, e, signed);
    Joined(buf, at, p, p + 3 + size);
    ReadOne(buf, p, size, signed);
  }

  lemma ReadOne(buf: Bytes, at: nat, size: nat, signed: bool)
    requires at + 3 + size <= |buf|
    ensures ReadBack(Entry(buf[at + 2..at + 2 + size], buf[at + 2 + size]), signed) == EntryRead(buf, at, size, signed)
  {}

  // An entry that is laid out is the next one.
  lemma EntryHere(buf: Bytes, at: nat, e: Entry)
    requires |e.filter| < 0x1_0000 && at + |EntryBytes(e)| <= |buf| && buf[at..at + |EntryBytes(e)|] == EntryBytes(e)
    ensures |EntryBytes(e)| == 3 + |e.filter| && ReadInt(buf, at) == |e.filter|
    ensures buf[at + 2..at + 2 + |e.filter|] == e.filter && buf[at + 2 + |e.filter|] == e.qos % 256
  {
    hide *;
    var f, q := Prefixed(e.filter), [e.qos % 256];
    var rest := buf[at + |EntryBytes(e)|..];
    EntryUnfold(e);
    Pieces(buf, at, f, q);
    ReadPrefixed(buf[..at], e.filter, q + rest, |buf|);
    StringRead(buf, at, |buf|, e.filter);
  }

  lemma EntryUnfold(e: Entry)
    ensures EntryBytes(e) == Prefixed(e.filter) + [e.qos % 256] && |Prefixed(e.filter)| == 2 + |e.filter|
  {}

  lemma Pieces(s: Bytes, at: nat, f: Bytes, q: Bytes)
    requires at + |f| + |q| <= |s| && s[at..at + |f + q|] == f + q
    ensures s == s[..at] + f + (q + s[at + |f + q|..])
    ensures |s[..at]| == at && forall i :: 0 <= i < |q| ==> s[at + |f| + i] == q[i]
  {
    assert s[at..at + |f + q|][..|f|] == f && s[at..at + |f + q|][|f|..] == q;
    assert s == s[..at] + s[at..at + |f + q|] + s[at + |f + q|..];
  }

  lemma StringRead(buf: Bytes, at: nat, end: nat, x: Bytes)
    requires at <= |buf| && end <= |buf| && ReadString(buf, at, end) == Some(x)
    ensures at + 2 + |x| <= |buf| && ReadInt(buf, at) == |x| && buf[at + 2..at + 2 + |x|] == x
  {
    hide ReadInt;
  }

  // The parser passes over any list laid out before its end.
  lemma {:induction false} PassesOver(buf: Bytes, at: nat, end: nat, done: seq<Entry>, room: nat, rc: nat, signed: bool)
    requires LaidOut(buf, at, end, done) && |done| <= room
    ensures ParseEntries(buf, at, end, [], room, rc, signed)
      == ParseEntries(buf, at + |EntriesBytes(done)|, end, AllReadBack(done, signed), room, rc, signed)
    decreases |done|
  {
    hide ParseEntries, EntryBytes, EntriesBytes, AllReadBack, ReadInt;
    if done == [] {
      NothingLaidOut(buf, at, end, signed);
    } else {
      var before, e := done[..|done| - 1], done[|done| - 1];
      assert done == before + [e];
      OneMoreEntry(before, e, signed);
      var p := at + |EntriesBytes(before)|;
      Shorter(buf, at, EntriesBytes(before), EntryBytes(e));
      PassesOver(buf, at, end, before, room, rc, signed);
      EntryHere(buf, p, e);
      PassesOne(buf, p, end, AllReadBack(before, signed), room, rc, signed, e);
    }
  }

  lemma Shorter(s: Bytes, at: nat, a: Bytes, b: Bytes)
    requires at + |a + b| <= |s| && s[at..at + |a + b|] == a + b
    ensures s[at..at + |a|] == a && s[at + |a|..at + |a| + |b|] == b
  {
    assert s[at..at + |a + b|][..|a|] == a && s[at..at + |a + b|][|a|..] == b;
  }

  lemma PassesOne(buf: Bytes, at: nat, end: nat, read: seq<Entry>, room: nat, rc: nat, signed: bool, e: Entry)
    requires at + 3 + |e.filter| <= |buf| && at + 3 + |e.filter| <= end && |read| < room
      && ReadInt(buf, at) == |e.filter|
    requires buf[at + 2..at + 2 + |e.filter|] == e.filter && buf[at + 2 + |e.filter|] == e.qos % 256
    ensures ParseEntries(buf, at, end, read, room, rc, signed)
      == ParseEntries(buf, at + 3 + |e.filter|, end, read + [ReadBack(e, signed)], room, rc, signed)
  {
    hide ReadInt;
  }

  // Every list of filters is read back, with packet id and dup flag, from the bytes written
  // for it; of a QoS value, what a char holds.
  lemma SubscribeRoundTrip(dup: Byte, id: nat, entries: seq<Entry>, suffix: Bytes, room: nat, signed: bool)
    requires |entries| <= room && id < 0x1_0000 && Short(entries)
    requires |SubscribeBody(id, entries)| < LENGTH_LIMIT
    ensures ParseSubscribe(Frame(Header(SUBSCRIBE, dup, 1, 0), SubscribeBody(id, entries)) + suffix, room, signed)
      == Ok(Subscription(dup % 2 == 1, id, AllReadBack(entries, signed)))
  {
    HeaderFields(SUBSCRIBE, dup, 1, 0);
    BodyRoundTrip(Header(SUBSCRIBE, dup, 1, 0), id, entries, suffix, room, signed);
  }

  lemma BodyRoundTrip(h: Byte, id: nat, entries: seq<Entry>, suffix: Bytes, room: nat, signed: bool)
    requires TypeOf(h) == SUBSCRIBE && |entries| <= room && id < 0x1_0000 && Short(entries)
    requires |SubscribeBody(id, entries)| < LENGTH_LIMIT
    ensures ParseSubscribe(Frame(h, SubscribeBody(id, entries)) + suffix, room, signed)
      == Ok(Subscription(DupOf(h) == 1, id, AllReadBack(entries, signed)))
  {
    hide *;
    var body, list := SubscribeBody(id, entries), EntriesBytes(entries);
    var head := [h] + EncodeLength(|body|);
    var s, end := Frame(h, body) + suffix, |head| + |body|;
    FrameRoundTrip(h, body, suffix);
    SubscribeBodyUnfold(id, entries);
    IntRoundTrip(id, head, list + suffix);
    Resplit(head, Int16(id), list, suffix);
    Between(head + Int16(id), list, suffix);
    LaidOutThere(s, |head| + 2, end, entries);
    PassesOver(s, |head| + 2, end, entries, room, |head| - 1, signed);
    AtEnd(s, end, AllReadBack(entries, signed), room, |head| - 1, signed);
    ParsedSubscription(s, |head|, end, |head| - 1, id, AllReadBack(entries, signed), room, signed);
  }

  lemma LaidOutThere(s: Bytes, at: nat, end: nat, entries: seq<Entry>)
    requires Short(entries) && at + |EntriesBytes(entries)| == end <= |s| && s[at..end] == EntriesBytes(entries)
    ensures LaidOut(s, at, end, entries)
  {}

  lemma Between(a: Bytes, b: Bytes, c: Bytes)
    ensures (a + b + c)[|a|..|a| + |b|] == b
  {}

  lemma Resplit(a: Bytes, b: Bytes, c: Bytes, d: Bytes)
    ensures a + (b + c) + d == a + b + (c + d) == (a + b) + c + d
    ensures |a| + |b + c| == |a + b| + |c|
  {}

  lemma AtEnd(s: Bytes, end: nat, read: seq<Entry>, room: nat, rc: nat, signed: bool)
    requires end <= |s|
    ensures ParseEntries(s, end, end, read, room, rc, signed) == Ok(read)
  {}

  lemma SubscribeBodyUnfold(id: nat, entries: seq<Entry>)
    ensures SubscribeBody(id, entries) == Int16(id) + EntriesBytes(entries) && |Int16(id)| == 2
  {}

  lemma ParsedSubscription(s: Bytes, at: nat, end: nat, rc: nat, id: nat, entries: seq<Entry>, room: nat, signed: bool)
    requires s != [] && TypeOf(s[0]) == SUBSCRIBE && FrameOf(s) == Framing(at, end, rc) && at + 2 <= |s|
    requires ReadInt(s, at) == id && ParseEntries(s, at + 2, end, [], room, rc, signed) == Ok(entries)
    ensures ParseSubscribe(s, room, signed) == Ok(Subscription(DupOf(s[0]) == 1, id, entries))
  {
    hide ParseEntries, FrameOf, ReadInt;
  }

  // What the serializer writes for well-sized requests, the parser turns back into the filters
  // written and what a char holds of the QoS values.
  lemma {:induction false} RequestsRoundTrip(dup: Byte, id: nat, requests: seq<Request>, suffix: Bytes, signed: bool)
    requires id < 0x1_0000 && AllConsistent(requests) && PredictedLength(requests) < LENGTH_LIMIT
    requires forall i :: 0 <= i < |requests| ==> requests[i].filter.StrLen() < 0x1_0000
    ensures var packet := Frame(Header(SUBSCRIBE, dup, 1, 0), SubscribeBody(id, EntriesOf(requests)));
      ParseSubscribe(packet + suffix, |requests|, signed)
      == Ok(Subscription(dup % 2 == 1, id, AllReadBack(EntriesOf(requests), signed)))
  {
    LengthAgrees(requests, id);
    forall i | 0 <= i < |requests| ensures |EntriesOf(requests)[i].filter| < 0x1_0000 {
      StrLenAgrees(requests[i].filter);
      EntryOfAt(requests, i);
    }
    assert Short(EntriesOf(requests));
    hide *;
    SubscribeRoundTrip(dup, id, EntriesOf(requests), suffix, |requests|, signed);
  }

  lemma {:induction false} EntryOfAt(requests: seq<Request>, i: nat)
    requires i < |requests|
    ensures EntriesOf(requests)[i] == EntryOf(requests[i])
  {
    if i > 0 {
      EntryOfAt(requests[1..], i - 1);
    }
  }

  // ---- How a list ends ----

  // The entries that the parser passes before it stops
  lemma {:induction false} StopsWhere(buf: Bytes, at: nat, end: nat, done: seq<Entry>, room: nat, rc: nat, signed: bool)
    returns (all: seq<Entry>)
    requires at <= |buf| && LaidOut(buf, at, end, done) && |done| <= room
    ensures LaidOut(buf, at, end, all) && |all| <= room
    ensures !Look(buf, at + |EntriesBytes(all)|, end, |all|, room).Next?
    decreases end - at - |EntriesBytes(done)|
  {
    hide LaidOut, EntriesBytes, ReadInt;
    var p := at + |EntriesBytes(done)|;
    InBuffer(buf, at, end, done);
    var found := Look(buf, p, end, |done|, room);
    all := done;
    if found.Next? {
      var more := EntryLaidOut(buf, at, end, done, found.size, signed);
      all := StopsWhere(buf, at, end, more, room, rc, signed);
    }
  }

  lemma InBuffer(buf: Bytes, at: nat, end: nat, done: seq<Entry>)
    requires LaidOut(buf, at, end, done)
    ensures at + |EntriesBytes(done)| <= |buf|
  {}

  // Entries done are laid out, and behind them the loop stops like this.
  predicate StopsAt(buf: Bytes, at: nat, end: nat, done: seq<Entry>, room: nat, f: Found) {
    && LaidOut(buf, at, end, done) && |done| <= room
    && Look(buf, at + |EntriesBytes(done)|, end, |done|, room) == f
  }

  // However the parser ends, it does so exactly because the list stops like this behind some
  // entries that are laid out in it, and those are the ones read.
  lemma EntriesExact(buf: Bytes, at: nat, end: nat, room: nat, rc: nat, signed: bool, f: Found)
    requires at <= |buf| && !f.Next?
    ensures (exists done :: StopsAt(buf, at, end, done, room, f))
      <==> exists read :: ParseEntries(buf, at, end, [], room, rc, signed) == Stopped(f, read, rc)
    ensures forall done :: StopsAt(buf, at, end, done, room, f) ==>
      ParseEntries(buf, at, end, [], room, rc, signed) == Stopped(f, AllReadBack(done, signed), rc)
  {
    hide ParseEntries, LaidOut, EntriesBytes, Look, AllReadBack;
    forall done | StopsAt(buf, at, end, done, room, f)
      ensures ParseEntries(buf, at, end, [], room, rc, signed) == Stopped(f, AllReadBack(done, signed), rc)
    {
      StopsThere(buf, at, end, done, room, rc, signed, f);
    }
    NothingLaidOut(buf, at, end, signed);
    var all := StopsWhere(buf, at, end, [], room, rc, signed);
    InBuffer(buf, at, end, all);
    var g := Look(buf, at + |EntriesBytes(all)|, end, |all|, room);
    assert StopsAt(buf, at, end, all, room, g);
    StopsThere(buf, at, end, all, room, rc, signed, g);
  }

  lemma StopsThere(buf: Bytes, at: nat, end: nat, done: seq<Entry>, room: nat, rc: nat, signed: bool, f: Found)
    requires at <= |buf| && !f.Next? && StopsAt(buf, at, end, done, room, f)
    ensures ParseEntries(buf, at, end, [], room, rc, signed) == Stopped(f, AllReadBack(done, signed), rc)
  {
    hide LaidOut, EntriesBytes, Look, AllReadBack;
    PassesOver(buf, at, end, done, room, rc, signed);
    InBuffer(buf, at, end, done);
    SizeKept(done, signed);
  }

  lemma SizeKept(done: seq<Entry>, signed: bool)
    ensures |AllReadBack(done, signed)| == |done|
  {}

  // Behind the entries done more bytes follow but no entry: its string does not fit, or its QoS
  // byte is missing.
  predicate Breaks(buf: Bytes, at: nat, end: nat, done: seq<Entry>) {
    var p := at + |EntriesBytes(done)|;
    && LaidOut(buf, at, end, done) && p < end
    && (end < p + 2 || (p + 2 <= |buf| && p + 2 + ReadInt(buf, p) >= end))
  }

  ghost predicate BreaksWithin(buf: Bytes, at: nat, end: nat, room: nat) {
    exists done :: |done| < room && Breaks(buf, at, end, done)
  }

  lemma BreaksIsBroken(buf: Bytes, at: nat, end: nat, done: seq<Entry>, room: nat)
    ensures StopsAt(buf, at, end, done, room, Broken) <==> |done| < room && Breaks(buf, at, end, done)
  {
    hide EntriesBytes, ReadInt;
  }

  // A list is malformed exactly when it breaks behind fewer entries than there is room for.
  lemma EntriesRejected(buf: Bytes, at: nat, end: nat, room: nat, rc: nat, signed: bool)
    requires at <= |buf|
    ensures ParseEntries(buf, at, end, [], room, rc, signed).Malformed? <==> BreaksWithin(buf, at, end, room)
    ensures var r := ParseEntries(buf, at, end, [], room, rc, signed); r.Malformed? ==> r.rc == rc
  {
    hide ParseEntries, StopsAt, Breaks;
    MalformedCode(buf, at, end, room, rc, signed);
    EntriesExact(buf, at, end, room, rc, signed, Broken);
    assert Stopped(Broken, [], rc) == Malformed(rc);
    forall done ensures StopsAt(buf, at, end, done, room, Broken) <==> |done| < room && Breaks(buf, at, end, done) {
      BreaksIsBroken(buf, at, end, done, room);
    }
  }

  lemma MalformedCode(buf: Bytes, at: nat, end: nat, room: nat, rc: nat, signed: bool)
    requires at <= |buf|
    ensures var r := ParseEntries(buf, at, end, [], room, rc, signed); r.Malformed? ==> r.rc == rc
  {}

  // Entries that fill the output arrays are laid out, and anything follows.
  predicate Overfills(buf: Bytes, at: nat, end: nat, room: nat, done: seq<Entry>) {
    |done| == room && LaidOut(buf, at, end, done) && at + |EntriesBytes(done)| < end
  }

  ghost predicate TooMany(buf: Bytes, at: nat, end: nat, room: nat) {
    exists done :: Overfills(buf, at, end, room, done)
  }

  lemma OverfillsIsFull(buf: Bytes, at: nat, end: nat, done: seq<Entry>, room: nat)
    ensures StopsAt(buf, at, end, done, room, Full) <==> Overfills(buf, at, end, room, done)
  {
    hide EntriesBytes, ReadInt;
  }

  // The parser writes past the output arrays exactly then.
  lemma EntriesOverflow(buf: Bytes, at: nat, end: nat, room: nat, rc: nat, signed: bool)
    requires at <= |buf|
    ensures ParseEntries(buf, at, end, [], room, rc, signed).Overflow? <==> TooMany(buf, at, end, room)
  {
    hide ParseEntries, StopsAt, Overfills;
    EntriesExact(buf, at, end, room, rc, signed, Full);
    assert Stopped(Full, [], rc) == Overflow;
    forall done ensures StopsAt(buf, at, end, done, room, Full) <==> Overfills(buf, at, end, room, done) {
      OverfillsIsFull(buf, at, end, done, room);
    }
  }

  // Which buffers are rejected, and which of them with the success code, byte by byte
  lemma RejectedExact(buf: Bytes, room: nat, signed: bool)
    ensures ParseSubscribe(buf, room, signed).Malformed? <==>
      && buf != [] && TypeOf(buf[0]) == SUBSCRIBE
      && var d := DecodeLength(buf[1..], 4);
      && var at := 1 + d.ReturnCode();
      && !d.status.Starved? && at + 2 <= |buf| && BreaksWithin(buf, at + 2, at + d.value, room)
    ensures ParseSubscribe(buf, room, signed) == Malformed(1) <==>
      && |buf| >= 4 && TypeOf(buf[0]) == SUBSCRIBE && buf[1] < 128 && BreaksWithin(buf, 4, 2 + buf[1], room)
  {
    hide ParseEntries, Breaks, ReadInt;
    var f := FrameOf(buf);
    if f.Framing? && f.at + 2 <= |buf| {
      EntriesRejected(buf, f.at + 2, f.end, room, f.rc, signed);
      OneByteField(buf);
    }
  }

  // A SUBSCRIBE whose list is a single byte
  lemma RejectedInput(rest: Bytes, room: nat, signed: bool)
    requires room > 0
    ensures ParseSubscribe([0x82, 0x03, 0x00, 0x01, 0x00] + rest, room, signed) == Malformed(1)
  {
    hide DecodeLength, ParseSubscribe, ParseEntries;
    var buf := [0x82, 0x03, 0x00, 0x01, 0x00] + rest;
    NothingLaidOut(buf, 4, 5, signed);
    assert Breaks(buf, 4, 5, []);
    RejectedExact(buf, room, signed);
  }

  // Which buffers make the parser write past output arrays of this size
  lemma OverflowExact(buf: Bytes, room: nat, signed: bool)
    ensures ParseSubscribe(buf, room, signed).Overflow? <==>
      && buf != [] && TypeOf(buf[0]) == SUBSCRIBE
      && var d := DecodeLength(buf[1..], 4);
      && var at := 1 + d.ReturnCode();
      && !d.status.Starved? && at + 2 <= |buf|
      && TooMany(buf, at + 2, at + d.value, room)
  {
    hide ParseEntries, Overfills, ReadInt;
    var f := FrameOf(buf);
    if f.Framing? && f.at + 2 <= |buf| {
      EntriesOverflow(buf, f.at + 2, f.end, room, f.rc, signed);
    }
  }

  // Two filters, "a" and "b", for arrays of one element
  lemma OverflowInput(rest: Bytes, signed: bool)
    ensures ParseSubscribe([0x82, 0x0A, 0x00, 0x01, 0x00, 0x01, 0x61, 0x00, 0x00, 0x01, 0x62, 0x00] + rest, 1, signed)
      == Overflow
  {
    hide ParseSubscribe, ParseEntries;
    var buf := [0x82, 0x0A, 0x00, 0x01, 0x00, 0x01, 0x61, 0x00, 0x00, 0x01, 0x62, 0x00] + rest;
    var a := Entry([0x61], 0);
    assert EntriesBytes([a]) == [0x00, 0x01, 0x61, 0x00];
    assert DecodeLength(buf[1..], 4) == Decoded(Complete, 10, 1);
    assert Overfills(buf, 4, 12, 1, [a]);
    OverflowExact(buf, 1, signed);
  }

  // A SUBSCRIBE of id 5 with filter "a" and QoS 2, byte by byte
  lemma SubscribeBytes()
    ensures Frame(Header(SUBSCRIBE, 0, 1, 0), SubscribeBody(5, [Entry([0x61], 2)]))
      == [0x82, 6, 0, 5, 0, 1, 0x61, 2]
  {
    var e := Entry([0x61], 2);
    assert EntriesBytes([e]) == EntryBytes(e) + EntriesBytes([]) && EntryBytes(e) == [0, 1, 0x61, 2];
    assert SubscribeBody(5, [e]) == [0, 5, 0, 1, 0x61, 2] && EncodeLength(6) == [6];
  }
}
