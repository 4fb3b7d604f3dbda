/**
  When the resumable reader of src/libmqtt/MQTTPacket.c gets a packet through: for every stream
  and every way in which the network hands it out, the exact condition.
*/
module MqttProgress {
  import opened Common
  import opened MqttPacket
  import opened MqttReader

  // ---- What the network does ----

  // A reply that gives nothing
  predicate Stall(r: Reply) {
    r.Again? || r == Upto(0)
  }

  // The replies left once a byte has come; a failure before that byte does not matter.
  function HeaderRest(script: seq<Reply>): Option<seq<Reply>> {
    if script == [] then None
    else if Stall(script[0]) || script[0].Error? then HeaderRest(script[1..])
    else Some(script[1..])
  }

  // How replies meet n requests for one byte each, up to a failure: the stalls among those used,
  // the bytes got, and the replies that are left
  datatype Replies = Replies(stalls: nat, got: nat, rest: seq<Reply>)

  function OneByOne(script: seq<Reply>, n: nat): (r: Replies)
    ensures r.got <= n
    decreases script
  {
    if n == 0 || script == [] || script[0].Error? then Replies(0, 0, script)
    else if Stall(script[0]) then
      var r := OneByOne(script[1..], n);
      r.(stalls := r.stalls + 1)
    else
      var r := OneByOne(script[1..], n - 1);
      r.(got := r.got + 1)
  }

  // The bytes that these replies hand out before a failure if they are asked for enough
  function Total(script: seq<Reply>): nat {
    if script == [] || script[0].Error? then 0
    else (if script[0].Upto? then script[0].size else 0) + Total(script[1..])
  }

  // The replies left once v bytes have come
  function Behind(v: nat, script: seq<Reply>): seq<Reply> {
    if v == 0 || script == [] || script[0].Error? then script
    else if script[0].Again? then Behind(v, script[1..])
    else if script[0].size >= v then script[1..]
    else Behind(v - script[0].size, script[1..])
  }

  // ---- The condition ----

  // The stream starts with a whole packet of a type other than 0, which the reader returns
  // only to be called again.
  predicate WholePacket(stream: Bytes) {
    && stream != [] && TypeOf(stream[0]) != 0
    && var d := DecodeLength(stream[1..], 4);
    && d.status.Complete? && 1 + d.used + d.value <= |stream|
  }

  // A byte comes for the header, and behind the replies used for it there is a body, the packet
  // fits the buffer with its length field in shortest form, the bytes of the length field and the
  // stalls among them are at most four, and enough is handed out, with no failure.
  predicate Comes(stream: Bytes, script: seq<Reply>, buflen: nat)
    requires stream != []
  {
    var d, header := DecodeLength(stream[1..], 4), HeaderRest(script);
    && header.Some?
    && var field := OneByOne(header.value, d.used);
    && d.value > 0 && PacketSize(d.value) <= buflen
    && field.stalls + d.used <= 4
    && field.got == d.used && d.value <= Total(field.rest)
  }

  // The replies left behind the packet
  function LeftBehind(stream: Bytes, script: seq<Reply>): seq<Reply>
    requires stream != []
  {
    var d, header := DecodeLength(stream[1..], 4), HeaderRest(script);
    if header.None? then [] else Behind(d.value, OneByOne(header.value, d.used).rest)
  }

  // ---- The condition, midway ----

  predicate FieldInTime(len: nat, script: seq<Reply>, n: nat) {
    var r := OneByOne(script, n);
    r.got == n && len + r.stalls + n <= 4
  }

  predicate BodyComes(v: nat, script: seq<Reply>) {
    0 < v <= Total(script)
  }

  // What is left of the condition when have bytes of the packet have been read
  predicate Promising(t: Trp, d: Decoded, have: nat, buflen: nat) {
    match t.state
    case 0 =>
      var header := HeaderRest(t.script);
      && header.Some? && FieldInTime(0, header.value, d.used)
      && PacketSize(d.value) <= buflen && BodyComes(d.value, OneByOne(header.value, d.used).rest)
    case 1 =>
      && 1 <= have <= d.used && FieldInTime(t.len, t.script, d.used + 1 - have)
      && PacketSize(d.value) <= buflen && BodyComes(d.value, OneByOne(t.script, d.used + 1 - have).rest)
    case 2 => BodyComes(t.remLen, t.script)
    case _ => false
  }

  // And the replies that will be left
  function Leaves(t: Trp, d: Decoded, have: nat): seq<Reply> {
    match t.state
    case 0 =>
      var header := HeaderRest(t.script);
      if header.None? then [] else Behind(d.value, OneByOne(header.value, d.used).rest)
    case 1 => if 1 <= have <= d.used then Behind(d.value, OneByOne(t.script, d.used + 1 - have).rest) else []
    case 2 => Behind(t.remLen, t.script)
    case _ => []
  }

  // ---- The stages ----

  lemma FetchStep(t: Trp, count: nat)
    requires 0 < count <= |t.data|
    ensures var f := Fetch(t, count);
      && (t.script == [] ==> f == Fetched(0, [], t))
      && (t.script != [] ==>
        && f.t.script == t.script[1..] && (f.rc == 0 <==> Stall(t.script[0])) && (f.rc == -1 <==> t.script[0].Error?))
      && (f.rc > 0 ==> f.rc == if t.script[0].size <= count then t.script[0].size else count)
      && f.rc >= -1 && (f.rc <= 0 ==> f.t.data == t.data)
      && (f.rc >= 0 ==> f.bytes == t.data[..f.rc] && f.t.data == t.data[f.rc..])
  {}

  // The rest of a length field
  predicate FieldAhead(y: Bytes) {
    y != [] && y[|y| - 1] < 128 && forall i :: 0 <= i < |y| - 1 ==> y[i] >= 128
  }

  // What the loop of MQTTPacket_decodenb makes of a field of which n bytes are ahead
  predicate LoopExact(t: Trp, n: nat, t': Trp, rc: int) {
    && |t'.script| <= |t.script|
    && (rc == -1 ==> !FieldInTime(t.len, t.script, n))
    && (rc > 0 ==>
      && FieldInTime(t.len, t.script, n) && t'.script == OneByOne(t.script, n).rest
      && |t.data| == |t'.data| + n)
    && (rc == 0 ==>
      && |t'.data| <= |t.data| < |t'.data| + n
      && var n' := n - (|t.data| - |t'.data|);
      && (FieldInTime(t.len, t.script, n) <==> FieldInTime(t'.len, t'.script, n'))
      && OneByOne(t.script, n).rest == OneByOne(t'.script, n').rest
      && (t.script == [] || |t'.script| < |t.script|))
  }

  // One request of the field
  lemma TimeStep(len: nat, script: seq<Reply>, n: nat)
    requires n > 0
    ensures len >= 4 || script == [] || script[0].Error? ==> !FieldInTime(len, script, n)
    ensures script != [] && !script[0].Error? ==>
      var n' := if Stall(script[0]) then n else n - 1;
      && (FieldInTime(len, script, n) <==> FieldInTime(len + 1, script[1..], n'))
      && OneByOne(script, n).rest == OneByOne(script[1..], n').rest
  {}

  lemma TimeDone(len: nat, script: seq<Reply>)
    ensures FieldInTime(len, script, 0) <==> len <= 4
    ensures OneByOne(script, 0).rest == script
  {}

  // A byte of the field that is not its last
  lemma LoopByte(t: Trp, n: nat, t2: Trp, t': Trp, rc: int)
    requires n > 0 && t.script != [] && !Stall(t.script[0]) && !t.script[0].Error?
    requires t2.len == t.len + 1 && t2.script == t.script[1..] && |t.data| == |t2.data| + 1
    requires LoopExact(t2, n - 1, t', rc)
    ensures LoopExact(t, n, t', rc)
  {
    hide FieldInTime, OneByOne;
    TimeStep(t.len, t.script, n);
  }

  // The attempt that ends the call: it was one too many, failed, or gave nothing
  lemma LoopStop(t: Trp, n: nat, t': Trp, rc: int)
    requires 0 < n <= |t.data| && |t'.script| <= |t.script|
    requires if t.len >= 4 || (t.script != [] && t.script[0].Error?) then rc == -1
      else rc == 0 && t'.len == t.len + 1 && t'.data == t.data
    requires t.len < 4 && t.script == [] ==> t' == t.(len := t.len + 1)
    requires t.len < 4 && t.script != [] && rc == 0 ==> Stall(t.script[0]) && t'.script == t.script[1..]
    ensures LoopExact(t, n, t', rc)
  {
    hide FieldInTime, OneByOne;
    TimeStep(t.len, t.script, n);
    TimeStep(t.len + 1, t.script, n);
  }

  lemma LoopLast(t: Trp, t': Trp, rc: int)
    requires t.len < 4 && t.script != [] && !Stall(t.script[0]) && !t.script[0].Error? && rc > 0
    requires t'.script == t.script[1..] && |t.data| == |t'.data| + 1
    ensures LoopExact(t, 1, t', rc)
  {
    hide FieldInTime, OneByOne;
    TimeStep(t.len, t.script, 1);
    TimeDone(t.len + 1, t.script[1..]);
  }

  lemma {:induction false} FieldLoop(t: Trp, y: Bytes)
    requires LengthSafe(t) && FieldAhead(y) && y <= t.data
    ensures var (t', rc) := LengthLoop(t); LoopExact(t, |y|, t', rc)
    decreases 5 - t.len
  {
    hide LengthLoop, Fetch, LengthSafe, TakeByte, OneByOne, FieldInTime, LoopExact;
    LengthLoopEnd(t);
    var (t', rc) := LengthLoop(t);
    var t1 := t.(len := t.len + 1);
    var f := Fetch(t1, 1);
    FetchStep(t1, 1);
    FetchSame(t1, 1);
    if t.len >= 4 || f.rc <= 0 {
      LoopStop(t, |y|, t', rc);
    } else {
      var c := y[0];
      assert f.rc == 1 && f.bytes[0] == c;
      LengthLoopByte(t, f.t, c);
      var t2 := f.t.(remLen := t.remLen + Product(t.multiplier, c % 128), multiplier := 128 * t.multiplier);
      if c < 128 {
        LoopLast(t, t', rc);
      } else {
        FieldLoop(t2, y[1..]);
        LoopByte(t, |y|, t2, t', rc);
      }
    }
  }

  lemma {:induction false} FieldBytes(s: Bytes, budget: nat)
    requires DecodeLength(s, budget).status.Complete?
    ensures var d := DecodeLength(s, budget); 1 <= d.used <= budget && d.used <= |s| && FieldAhead(s[..d.used])
  {
    var d := DecodeLength(s, budget);
    if s[0] >= 128 {
      FieldBytes(s[1..], budget - 1);
      var tail := s[1..][..d.used - 1];
      assert s[..d.used] == [s[0]] + tail;
    }
  }

  // What is behind continued bytes of the field
  lemma FieldTail(y: Bytes, n: nat)
    requires FieldAhead(y) && forall i :: 0 <= i < n && i < |y| ==> y[i] >= 128
    ensures n < |y| && FieldAhead(y[n..])
  {
    var last := y[|y| - 1];
    assert last < 128;
  }

  lemma FieldBehind(s: Bytes, n: nat)
    requires DecodeLength(s, 4).status.Complete? && n <= |s| && forall i :: 0 <= i < n ==> s[i] >= 128
    ensures var d := DecodeLength(s, 4); n < d.used <= 4 && d.used <= |s| && FieldAhead(s[n..d.used])
  {
    hide DecodeLength, FieldAhead;
    FieldBytes(s, 4);
    var used := DecodeLength(s, 4).used;
    FieldTail(s[..used], n);
    assert s[n..used] == s[..used][n..];
  }

  // A stage keeps the promise as it was, and the replies that it will leave.
  predicate Kept(t: Trp, have: nat, t': Trp, have': nat, d: Decoded, buflen: nat) {
    && |t'.script| <= |t.script|
    && (Promising(t, d, have, buflen) <==> Promising(t', d, have', buflen))
    && (Promising(t, d, have, buflen) ==> Leaves(t, d, have) == Leaves(t', d, have'))
  }

  lemma HeaderStep(t: Trp, buf: Bytes, buflen: nat, stream: Bytes)
    requires 1 <= |buf| && t.state == 0 && t.data == stream && WholePacket(stream)
    ensures var o, d := HeaderStage(t, buf), DecodeLength(stream[1..], 4);
      && |o.buf| == |buf| && Kept(t, 0, o.t, if o.Next? then 1 else 0, d, buflen)
      && (o.Return? ==>
        && o.rc <= 0 && o.t.state == 0 && o.t.data == stream
        && (t.script == [] || |o.t.script| < |t.script|))
      && (o.Next? ==> o.t.state == 1 && o.t.len == 0 && |stream| == |o.t.data| + 1 && |o.t.script| < |t.script|)
  {
    hide DecodeLength, Total, Behind, FieldInTime, Overwrite, Fetch, OneByOne;
    FetchStep(t, 1);
    var d := DecodeLength(stream[1..], 4);
    FieldBytes(stream[1..], 4);
    FetchSame(t, 1);
  }

  lemma FetchSame(t: Trp, count: nat)
    ensures var f := Fetch(t, count); f.t == t.(script := f.t.script, data := f.t.data)
  {}

  // The length field of a packet in progress, with taken of its bytes read
  predicate AtField(t: Trp, taken: Bytes, stream: Bytes) {
    && t.state == 1 && taken != [] && stream == taken + t.data
    && if t.len == 0 then |taken| == 1 else Partial(t, taken[1..])
  }

  // The loop, from wherever in the field it starts
  lemma LengthDecoded(t: Trp, taken: Bytes, stream: Bytes)
    requires AtField(t, taken, stream) && (t.len > 0 ==> LengthSafe(t))
    requires DecodeLength(stream[1..], 4).status.Complete?
    ensures var (d, (t', rc)) := (DecodeLength(stream[1..], 4), DecodeNb(t));
      && |taken| <= d.used && LoopExact(t, d.used + 1 - |taken|, t', rc)
      && (rc > 0 ==> t'.remLen == d.value)
  {
    hide DecodeLength, LengthLoop, FieldAhead, OneByOne, FieldInTime, LoopExact;
    var x, used := taken[1..], DecodeLength(stream[1..], 4).used;
    var t0 := if t.len == 0 then t.(multiplier := 1, remLen := 0) else t;
    FieldStart(t, t0, x);
    FieldRest(taken, t.data);
    FieldContinues(t0, x, t.data);
    FieldBehind(x + t.data, |x|);
    BehindX(x, t.data, used);
    FieldLoop(t0, t.data[..used - |x|]);
    FieldValue(t0, x, stream);
    SameExact(t0, t, used - |x|, DecodeNb(t).0, DecodeNb(t).1);
  }

  lemma FieldRest(taken: Bytes, data: Bytes)
    requires taken != []
    ensures (taken + data)[1..] == taken[1..] + data
  {}

  lemma FieldContinues(t: Trp, x: Bytes, data: Bytes)
    requires Partial(t, x)
    ensures forall i :: 0 <= i < |x| ==> (x + data)[i] >= 128
  {}

  lemma BehindX(x: Bytes, data: Bytes, used: nat)
    requires |x| <= used <= |x + data|
    ensures (x + data)[|x|..used] == data[..used - |x|]
  {}

  lemma SameExact(t0: Trp, t: Trp, n: nat, t': Trp, rc: int)
    requires LoopExact(t0, n, t', rc) && t0.len == t.len && t0.script == t.script && t0.data == t.data
    ensures LoopExact(t, n, t', rc)
  {}

  lemma FieldValue(t: Trp, x: Bytes, stream: Bytes)
    requires LengthSafe(t) && Partial(t, x) && stream != [] && stream[1..] == x + t.data
    requires DecodeLength(stream[1..], 4).status.Complete?
    ensures var (t', rc) := LengthLoop(t); rc > 0 ==> t'.remLen == DecodeLength(stream[1..], 4).value
  {
    hide LengthLoop, Partial, LengthSafe, DecodeLength;
    var n := LengthLoopAgrees(t, x);
    var (t', rc) := LengthLoop(t);
    if rc > 0 {
      Associate(x, n, t'.data);
      DecodeExtend(x + n, t'.data, 4);
    }
  }

  lemma LengthStep(t: Trp, buf: Bytes, buflen: nat, taken: Bytes, stream: Bytes)
    requires 1 <= |buf| && buflen <= |buf| && Safe(t, |buf|) && AtField(t, taken, stream) && FieldRoom(t, |buf|)
    requires WholePacket(stream)
    ensures var o, d := LengthStage(t, buf, buflen), DecodeLength(stream[1..], 4);
      && (o.Return? && o.t.state == 0 ==> o.rc == -1 && !Promising(t, d, |taken|, buflen))
      && (o.Next? || o.t.state != 0 ==> |o.t.data| <= |stream|)
      && (o.Return? && o.t.state != 0 ==>
        && o.rc == 0 && o.t.state == 1 && Kept(t, |taken|, o.t, |stream| - |o.t.data|, d, buflen)
        && (t.script == [] || |o.t.script| < |t.script|))
      && (o.Next? ==>
        && o.t.state == 2 && o.t.remLen == d.value
        && Kept(t, |taken|, o.t, |stream| - |o.t.data|, d, buflen))
  {
    hide DecodeLength, DecodeNb, LengthStage, OneByOne, FieldInTime, Total, Behind, Partial, LengthSafe,
      EncodeLength, FieldRoom;
    LengthDecoded(t, taken, stream);
    LengthOutcome(t, buf, buflen);
  }

  lemma LengthOutcome(t: Trp, buf: Bytes, buflen: nat)
    requires 1 <= |buf| && buflen <= |buf| && t.state == 1 && Safe(t, |buf|) && FieldRoom(t, |buf|)
    ensures var o := LengthStage(t, buf, buflen);
      var (t1, rc) := DecodeNb(t);
      && o.t.script == t1.script && o.t.data == t1.data
      && (rc == -1 ==> o.Return? && o.rc == -1 && o.t.state == 0)
      && (rc == 0 ==> o == Return(t1, buf, 0) && t1.state == 1)
      && (rc > 0 ==>
        if PacketSize(t1.remLen) > buflen then o.Return? && o.rc == -1 && o.t.state == 0
        else o.Next? && o.t.state == 2 && o.t.remLen == t1.remLen)
  {
    hide LengthLoop, EncodeLength, Overwrite;
  }

  // The first bytes of a packet in progress are those of the stream.
  lemma SamePacket(taken: Bytes, data: Bytes)
    requires taken != [] && DecodeLength(taken[1..], 4).status.Complete?
    ensures DecodeLength((taken + data)[1..], 4) == DecodeLength(taken[1..], 4) && (taken + data)[0] == taken[0]
  {
    hide DecodeLength;
    FieldRest(taken, data);
    DecodeExtend(taken[1..], data, 4);
  }

  lemma BodyMidway(t: Trp, buf: Bytes, buflen: nat, taken: Bytes, stream: Bytes)
    requires 1 <= |buf| && buflen <= |buf| && Midway(t, buf, buflen, taken) && t.state == 2
    requires WholePacket(stream) && stream == taken + t.data
    ensures t.remLen <= |t.data| && t.len > 0 && TypeOf(buf[0]) > 0
  {
    hide DecodeLength, EncodeLength, TypeOf;
    SamePacket(taken, t.data);
    assert buf[..t.len][0] == taken[0];
  }

  lemma TotalStep(v: nat, script: seq<Reply>)
    requires script != [] && v > 0
    ensures script[0].Error? ==> !BodyComes(v, script)
    ensures Stall(script[0]) ==>
      (BodyComes(v, script) <==> BodyComes(v, script[1..])) && Behind(v, script) == Behind(v, script[1..])
    ensures script[0].Upto? && script[0].size >= v ==> BodyComes(v, script) && Behind(v, script) == script[1..]
    ensures script[0].Upto? && script[0].size < v ==>
      var v' := v - script[0].size;
      (BodyComes(v, script) <==> BodyComes(v', script[1..])) && Behind(v, script) == Behind(v', script[1..])
  {}

  lemma BodyStep(t: Trp, buf: Bytes, buflen: nat, taken: Bytes, stream: Bytes, d: Decoded)
    requires 1 <= |buf| && buflen <= |buf| && Safe(t, |buf|) && Midway(t, buf, buflen, taken) && t.state == 2
    requires WholePacket(stream) && stream == taken + t.data
    ensures var o := BodyStage(t, buf);
      && o.Return?
      && (o.rc > 0 ==> o.t.state == 0 && BodyComes(t.remLen, t.script) && o.t.script == Behind(t.remLen, t.script))
      && (o.rc < 0 ==> o.t.state == 0 && !BodyComes(t.remLen, t.script))
      && (o.rc == 0 ==>
        && o.t.state == 2 && Kept(t, 0, o.t, 0, d, buflen)
        && (t.script == [] || |o.t.script| < |t.script|))
  {
    hide Fetch, Midway, Total, Behind, WholePacket, OneByOne, DecodeLength, EncodeLength;
    BodyMidway(t, buf, buflen, taken, stream);
    FetchSame(t, t.remLen);
    if t.remLen == 0 {
      EmptyReply(t);
    } else {
      FetchStep(t, t.remLen);
      if t.script != [] {
        TotalStep(t.remLen, t.script);
      }
    }
  }

  lemma EmptyReply(t: Trp)
    ensures var f := Fetch(t, 0);
      f.rc <= 0 && f.t.script == if t.script == [] then [] else t.script[1..]
  {}

  // ---- One call ----

  // What one call does about the packet it starts from: it delivers the packet only with the
  // promise, gives it up only without, and otherwise uses up a reply and keeps the promise as it
  // was. size bytes of the stream are left from the start of the packet.
  predicate Advances(t: Trp, o: Outcome, have: nat, d: Decoded, buflen: nat, size: nat) {
    && o.Return? && |o.t.data| <= size
    && (o.rc > 0 ==> Promising(t, d, have, buflen) && |o.t.data| < size && o.t.script == Leaves(t, d, have))
    && (o.rc < 0 && |o.t.data| < size ==> !Promising(t, d, have, buflen))
    && (o.rc != 0 ==> o.t.state == 0)
    && (o.rc == 0 || |o.t.data| == size ==>
      && Kept(t, have, o.t, size - |o.t.data|, d, buflen) && (t.script == [] || |o.t.script| < |t.script|)
      && (o.t.state == 0 ==> |o.t.data| == size))
  }

  lemma AdvancesBody(t: Trp, buf: Bytes, buflen: nat, taken: Bytes, stream: Bytes)
    requires 1 <= |buf| && buflen <= |buf| && Safe(t, |buf|) && Midway(t, buf, buflen, taken) && t.state == 2
    requires WholePacket(stream) && stream == taken + t.data
    ensures Advances(t, BodyStage(t, buf), |taken|, DecodeLength(stream[1..], 4), buflen, |stream|)
  {
    hide BodyStage, Total, Behind, WholePacket, OneByOne, DecodeLength, EncodeLength;
    BodyStep(t, buf, buflen, taken, stream, DecodeLength(stream[1..], 4));
    var n := BodyAgrees(t, buf, buflen, taken);
  }

  lemma AdvancesLength(t: Trp, buf: Bytes, buflen: nat, taken: Bytes, stream: Bytes)
    requires 1 <= |buf| && buflen <= |buf| && Safe(t, |buf|) && Midway(t, buf, buflen, taken) && t.state == 1
    requires FieldRoom(t, |buf|) && WholePacket(stream) && stream == taken + t.data
    ensures Advances(t, ReadNb(t, buf, buflen), |taken|, DecodeLength(stream[1..], 4), buflen, |stream|)
  {
    hide Promising, Leaves, BodyStage, LengthStage, Total, WholePacket, OneByOne, DecodeLength, EncodeLength,
      Delivered, FieldRoom;
    LengthStep(t, buf, buflen, taken, stream);
    var o := LengthStage(t, buf, buflen);
    var n := LengthAgrees(t, buf, buflen, taken);
    if o.Next? {
      Associate(taken, n, o.t.data);
      AdvancesBody(o.t, o.buf, buflen, taken + n, stream);
    }
  }

  lemma ReadsHeader(t: Trp, buf: Bytes, buflen: nat)
    requires buflen <= |buf| && t.state == 0 && Safe(t, |buf|) && Room(t, |buf|)
    ensures var o := HeaderStage(t, buf);
      && |o.buf| == |buf|
      && (o.Next? ==> o.t.state == 1 && Safe(o.t, |buf|) && FieldRoom(o.t, |buf|) && Room(o.t, |buf|))
      && ReadNb(t, buf, buflen) == if o.Next? then ReadNb(o.t, o.buf, buflen) else o
  {
    hide FieldRoom;
    assert t.(state := 0) == t;
  }

  lemma AdvancesHeader(t: Trp, buf: Bytes, buflen: nat, stream: Bytes)
    requires buflen <= |buf| && t.state == 0 && Safe(t, |buf|) && Room(t, |buf|)
    requires WholePacket(stream) && stream == t.data
    ensures Advances(t, ReadNb(t, buf, buflen), 0, DecodeLength(stream[1..], 4), buflen, |stream|)
  {
    hide Promising, Leaves, HeaderStage, BodyStage, LengthStage, Total, WholePacket, OneByOne, DecodeLength,
      EncodeLength, Delivered, Midway, FieldRoom;
    HeaderStep(t, buf, buflen, stream);
    var o := HeaderStage(t, buf);
    var n := HeaderAgrees(t, buf, buflen);
    ReadsHeader(t, buf, buflen);
    if o.Next? {
      assert [] + n == n && |n| == 1;
      AdvancesLength(o.t, o.buf, buflen, n, stream);
      AdvancesOn(t, 0, o.t, 1, ReadNb(o.t, o.buf, buflen), DecodeLength(stream[1..], 4), buflen, |stream|);
    }
  }

  lemma AdvancesOn(t: Trp, have: nat, t': Trp, have': nat, o: Outcome, d: Decoded, buflen: nat, size: nat)
    requires Kept(t, have, t', have', d, buflen) && |t'.script| < |t.script|
    requires Advances(t', o, have', d, buflen, size)
    ensures Advances(t, o, have, d, buflen, size)
  {
    hide Promising, Leaves;
  }

  // rest is what of the stream is left from the start of the packet in progress.
  lemma CallAdvances(s: Session, buflen: nat, stream: Bytes, rest: Bytes)
    requires Sound(s, buflen, stream) && stream == s.past + rest && WholePacket(rest)
    ensures rest == s.taken + s.t.data
    ensures Advances(s.t, ReadNb(s.t, s.buf, buflen), |s.taken|, DecodeLength(rest[1..], 4), buflen, |rest|)
  {
    hide ReadNb, Advances, WholePacket, DecodeLength, EncodeLength, BodyStage, LengthStage, HeaderStage,
      OneByOne, FieldRoom, Roomy;
    SameTail(s.past, rest, s.taken, s.t.data);
    if s.t.state == 2 {
      ReadsBody(s.t, s.buf, buflen);
      AdvancesBody(s.t, s.buf, buflen, s.taken, rest);
    } else if s.t.state == 1 {
      AdvancesLength(s.t, s.buf, buflen, s.taken, rest);
    } else {
      assert [] + s.t.data == s.t.data;
      AdvancesHeader(s.t, s.buf, buflen, rest);
    }
  }

  lemma SameTail(a: Bytes, b: Bytes, c: Bytes, d: Bytes)
    requires a + b == a + c + d
    ensures b == c + d
  {
    assert (a + b)[|a|..] == b && (a + c + d)[|a|..] == c + d;
  }

  lemma ReadsBody(t: Trp, buf: Bytes, buflen: nat)
    requires buflen <= |buf| && Safe(t, |buf|) && t.state == 2 && Room(t, |buf|)
    ensures ReadNb(t, buf, buflen) == BodyStage(t, buf)
  {}

  // ---- Runs ----

  // Whether the packet is still promised
  predicate Pending(s: Session, d: Decoded, buflen: nat) {
    Promising(s.t, d, |s.taken|, buflen)
  }

  function Leaving(s: Session, d: Decoded): seq<Reply> {
    Leaves(s.t, d, |s.taken|)
  }

  lemma CallPending(s: Session, buflen: nat, stream: Bytes, rest: Bytes)
    requires Sound(s, buflen, stream) && stream == s.past + rest && WholePacket(rest)
    ensures var (d, (s', rc, _)) := (DecodeLength(rest[1..], 4), Call(s, buflen));
      && (rc > 0 ==>
        && Pending(s, d, buflen) && s'.past != s.past
        && s'.t.state == 0 && s'.t.script == Leaving(s, d))
      && (s'.past != s.past && rc <= 0 ==> rc < 0 && !Pending(s, d, buflen))
      && (s'.past == s.past ==>
        && (Pending(s, d, buflen) <==> Pending(s', d, buflen))
        && (Pending(s, d, buflen) ==> Leaving(s, d) == Leaving(s', d))
        && (s.t.script == [] || |s'.t.script| < |s.t.script|))
  {
    hide ReadNb, WholePacket, DecodeLength, Promising, Leaves, Midway, Safe, Room, Roomy;
    CallAdvances(s, buflen, stream, rest);
    CallSound(s, buflen, stream);
    var (s', rc, p) := Call(s, buflen);
    assert |stream| == |s.past| + |rest| && |rest| == |s.taken| + |s.t.data|;
    assert |stream| == |s'.past| + |s'.taken| + |s'.t.data|;
    Unmoved(s.past, s.taken, s.t.data);
  }

  lemma Unmoved(past: Bytes, taken: Bytes, data: Bytes)
    ensures past + [] == past && taken + [] == taken && data[..0] == []
    ensures past + taken == past ==> taken == []
  {
    assert |past + taken| == |past| + |taken|;
  }

  lemma PastGrows(s: Session, buflen: nat, stream: Bytes)
    requires Sound(s, buflen, stream)
    ensures s.past <= Call(s, buflen).0.past
  {}

  lemma {:induction false} RunGrows(s: Session, buflen: nat, stream: Bytes, j: nat, k: nat)
    requires Sound(s, buflen, stream) && j <= k
    ensures Calls(s, buflen, j, stream).past <= Calls(s, buflen, k, stream).past
    decreases k
  {
    hide Call, Sound;
    if j < k {
      RunGrows(s, buflen, stream, j, k - 1);
      PastGrows(Calls(s, buflen, k - 1, stream), buflen, stream);
    }
  }

  lemma {:induction false} PendingKept(s: Session, buflen: nat, stream: Bytes, rest: Bytes, k: nat)
    requires Sound(s, buflen, stream) && stream == s.past + rest && WholePacket(rest)
    requires Calls(s, buflen, k, stream).past == s.past
    ensures var (d, s') := (DecodeLength(rest[1..], 4), Calls(s, buflen, k, stream));
      && (Pending(s, d, buflen) <==> Pending(s', d, buflen))
      && (Pending(s, d, buflen) ==> Leaving(s, d) == Leaving(s', d))
    decreases k
  {
    hide Call, WholePacket, DecodeLength, Pending, Leaving, Sound;
    if k > 0 {
      RunGrows(s, buflen, stream, 0, k - 1);
      RunGrows(s, buflen, stream, k - 1, k);
      PendingKept(s, buflen, stream, rest, k - 1);
      CallPending(Calls(s, buflen, k - 1, stream), buflen, stream, rest);
    }
  }

  // A promise needs replies to come true.
  lemma PendingNeedsReplies(s: Session, d: Decoded, buflen: nat)
    requires Pending(s, d, buflen)
    ensures s.t.script != []
  {}

  // The k-th call returns a packet, the first one from where the session stands.
  ghost predicate DeliversAt(s: Session, buflen: nat, stream: Bytes, k: nat)
    requires Sound(s, buflen, stream)
  {
    var s' := Calls(s, buflen, k, stream);
    s'.past == s.past && Call(s', buflen).1 > 0
  }

  lemma {:induction false} PendingDelivers(s: Session, buflen: nat, stream: Bytes, rest: Bytes, k: nat) returns (j: nat)
    requires Sound(s, buflen, stream) && stream == s.past + rest && WholePacket(rest)
    requires var s' := Calls(s, buflen, k, stream);
      s'.past == s.past && Pending(s', DecodeLength(rest[1..], 4), buflen)
    ensures DeliversAt(s, buflen, stream, j)
    decreases |Calls(s, buflen, k, stream).t.script|
  {
    hide Call, DecodeLength, Promising, Sound;
    var s' := Calls(s, buflen, k, stream);
    SoundBuffer(s', buflen, stream);
    CallPending(s', buflen, stream, rest);
    PendingNeedsReplies(s', DecodeLength(rest[1..], 4), buflen);
    j := k;
    if Call(s', buflen).1 <= 0 {
      assert Calls(s, buflen, k + 1, stream) == Call(s', buflen).0;
      j := PendingDelivers(s, buflen, stream, rest, k + 1);
    }
  }

  lemma SoundBuffer(s: Session, buflen: nat, stream: Bytes)
    requires Sound(s, buflen, stream)
    ensures buflen <= |s.buf| && Safe(s.t, |s.buf|) && Room(s.t, |s.buf|)
  {}

  // What is delivered was whole.
  lemma DeliveredWhole(s: Session, buflen: nat, stream: Bytes, rest: Bytes)
    requires Sound(s, buflen, stream) && stream == s.past + rest && Call(s, buflen).1 > 0
    ensures WholePacket(rest)
    ensures var (s', _, p) := Call(s, buflen);
      s'.past == s.past + p && |p| == PacketBytes(rest) && rest == p + s'.taken + s'.t.data
  {
    hide Midway, ReadNb, Safe, Room, Roomy, EncodeLength, TypeOf, DecodeLength;
    CallSound(s, buflen, stream);
    var (s', rc, p) := Call(s, buflen);
    var more := s'.taken + s'.t.data;
    Bracket(s.past, p, s'.taken, s'.t.data);
    SameTail(s.past, rest, p, more);
    DeliveredSize(p, rc, s'.buf[..s'.t.len], buflen);
    SamePacket(p, more);
    assert p + s'.taken + s'.t.data == p + more;
  }

  lemma Bracket(a: Bytes, b: Bytes, c: Bytes, d: Bytes)
    ensures (a + b) + c + d == a + b + (c + d)
  {}

  lemma DeliveredSize(p: Bytes, msgType: int, bytes: Bytes, buflen: nat)
    requires Delivered(p, msgType, bytes, buflen) && msgType > 0
    ensures p != [] && TypeOf(p[0]) != 0 && DecodeLength(p[1..], 4).status.Complete?
    ensures var d := DecodeLength(p[1..], 4); 1 + d.used + d.value == |p|
  {}

  // The bytes of the first packet
  function PacketBytes(stream: Bytes): (n: nat)
    requires stream != []
    ensures n > 0
  {
    var d := DecodeLength(stream[1..], 4);
    1 + d.used + d.value
  }

  // From the start of a packet on, it gets through, after whatever number of calls, exactly when
  // the condition holds; the network is left with the replies behind it.
  lemma PacketDelivered(s: Session, buflen: nat, stream: Bytes, rest: Bytes)
    requires Sound(s, buflen, stream) && stream == s.past + rest && s.t.state == 0
    ensures (exists k: nat :: DeliversAt(s, buflen, stream, k))
      <==> WholePacket(rest) && Comes(rest, s.t.script, buflen)
    ensures forall k: nat :: DeliversAt(s, buflen, stream, k) ==>
      var s' := Calls(s, buflen, k + 1, stream);
      && rest != [] && s'.t.state == 0 && s'.t.script == LeftBehind(rest, s.t.script)
      && |s'.past| == |s.past| + PacketBytes(rest)
  {
    hide Call, DecodeLength, TypeOf, EncodeLength, OneByOne, Behind, Total, Sound;
    FreshSession(s, buflen, stream);
    forall k: nat | DeliversAt(s, buflen, stream, k)
      ensures WholePacket(rest) && Comes(rest, s.t.script, buflen)
      ensures var s' := Calls(s, buflen, k + 1, stream);
        && rest != [] && s'.t.state == 0 && s'.t.script == LeftBehind(rest, s.t.script)
        && |s'.past| == |s.past| + PacketBytes(rest)
    {
      DeliversOne(s, buflen, stream, rest, k);
    }
    if WholePacket(rest) && Comes(rest, s.t.script, buflen) {
      var k := PendingDelivers(s, buflen, stream, rest, 0);
    }
  }

  lemma DeliversOne(s: Session, buflen: nat, stream: Bytes, rest: Bytes, k: nat)
    requires Sound(s, buflen, stream) && stream == s.past + rest && s.t.state == 0 && DeliversAt(s, buflen, stream, k)
    ensures WholePacket(rest) && Comes(rest, s.t.script, buflen)
    ensures var s' := Calls(s, buflen, k + 1, stream);
      && s'.t.state == 0 && s'.t.script == LeftBehind(rest, s.t.script)
      && |s'.past| == |s.past| + PacketBytes(rest)
  {
    hide Call, DecodeLength, TypeOf, EncodeLength, OneByOne, Behind, Total, Sound;
    FreshSession(s, buflen, stream);
    var s' := Calls(s, buflen, k, stream);
    DeliveredWhole(s', buflen, stream, rest);
    PendingKept(s, buflen, stream, rest, k);
    CallPending(s', buflen, stream, rest);
  }

  lemma FreshSession(s: Session, buflen: nat, stream: Bytes)
    requires Sound(s, buflen, stream) && s.t.state == 0
    ensures s.taken == []
  {}

  // The first packet of a stream
  lemma FirstPacketDelivered(stream: Bytes, script: seq<Reply>, buf: Bytes, buflen: nat)
    requires Roomy(stream, |buf|) && buflen <= |buf|
    ensures Sound(Opened(stream, script, buf), buflen, stream)
    ensures (exists k: nat :: DeliversAt(Opened(stream, script, buf), buflen, stream, k))
      <==> WholePacket(stream) && Comes(stream, script, buflen)
  {
    hide Call, DecodeLength, TypeOf, Comes, Sound, Roomy;
    OpenedSound(stream, script, buf, buflen);
    assert [] + stream == stream;
    PacketDelivered(Opened(stream, script, buf), buflen, stream, stream);
  }

  // ---- Whole streams ----

  // Nothing but whole packets
  predicate WholePackets(stream: Bytes)
    decreases |stream|
  {
    stream == [] ||
    (WholePacket(stream) && PacketBytes(stream) <= |stream| && WholePackets(stream[PacketBytes(stream)..]))
  }

  // Every packet comes through, with the replies left behind those before it.
  predicate AllCome(stream: Bytes, script: seq<Reply>, buflen: nat)
    decreases |stream|
  {
    stream == [] ||
    (Comes(stream, script, buflen) && PacketBytes(stream) <= |stream|
     && AllCome(stream[PacketBytes(stream)..], LeftBehind(stream, script), buflen))
  }

  // What the blocking reader returns when it is called until it fails or the stream is over
  function Blocking(stream: Bytes, buflen: nat): seq<ReadResult>
    decreases |stream|
  {
    var r := ReadPacket(stream, buflen);
    if r.Failed? || r.taken == 0 || r.taken > |stream| then [] else [r] + Blocking(stream[r.taken..], buflen)
  }

  // The packet that a call returns
  ghost function Result(s: Session, buflen: nat, stream: Bytes): seq<ReadResult>
    requires Sound(s, buflen, stream)
  {
    CallSound(s, buflen, stream);
    var (s', rc, p) := Call(s, buflen);
    if rc > 0 then [Packet(rc, s'.buf[..s'.t.len], |p|)] else []
  }

  // The packets that the first k calls return
  ghost function Results(s: Session, buflen: nat, stream: Bytes, k: nat): seq<ReadResult>
    requires Sound(s, buflen, stream)
  {
    if k == 0 then []
    else Results(s, buflen, stream, k - 1) + Result(Calls(s, buflen, k - 1, stream), buflen, stream)
  }

  // The call gives up a packet that it has begun.
  ghost predicate GivesUp(s: Session, buflen: nat, stream: Bytes)
    requires Sound(s, buflen, stream)
  {
    var (s', rc, _) := Call(s, buflen);
    rc < 0 && s'.past != s.past
  }

  ghost predicate NoneGivenUp(s: Session, buflen: nat, stream: Bytes, k: nat)
    requires Sound(s, buflen, stream)
  {
    forall i: nat :: i < k ==> !GivesUp(Calls(s, buflen, i, stream), buflen, stream)
  }

  // k calls get the whole stream through.
  ghost predicate Finishes(s: Session, buflen: nat, stream: Bytes, k: nat)
    requires Sound(s, buflen, stream)
  {
    NoneGivenUp(s, buflen, stream, k) && Calls(s, buflen, k, stream).past == stream
  }

  lemma {:induction false} CallsAdd(s: Session, buflen: nat, stream: Bytes, j: nat, k: nat)
    requires Sound(s, buflen, stream)
    ensures Calls(Calls(s, buflen, j, stream), buflen, k, stream) == Calls(s, buflen, j + k, stream)
    ensures Results(s, buflen, stream, j + k)
      == Results(s, buflen, stream, j) + Results(Calls(s, buflen, j, stream), buflen, stream, k)
    decreases k
  {
    hide Call, Sound, Result;
    if k == 0 {
      assert Results(s, buflen, stream, j) + [] == Results(s, buflen, stream, j);
    } else {
      CallsAdd(s, buflen, stream, j, k - 1);
      var a, b := Results(s, buflen, stream, j), Results(Calls(s, buflen, j, stream), buflen, stream, k - 1);
      var c := Result(Calls(s, buflen, j + k - 1, stream), buflen, stream);
      assert a + b + c == a + (b + c);
    }
  }

  // Calls that stay in one packet return none.
  lemma {:induction false} NoResults(s: Session, buflen: nat, stream: Bytes, k: nat)
    requires Sound(s, buflen, stream) && Calls(s, buflen, k, stream).past == s.past
    ensures Results(s, buflen, stream, k) == []
    decreases k
  {
    hide Call, Sound, Result;
    if k > 0 {
      RunGrows(s, buflen, stream, 0, k - 1);
      RunGrows(s, buflen, stream, k - 1, k);
      NoResults(s, buflen, stream, k - 1);
      NoResult(Calls(s, buflen, k - 1, stream), buflen, stream);
    }
  }

  lemma NoResult(s: Session, buflen: nat, stream: Bytes)
    requires Sound(s, buflen, stream)
    ensures Call(s, buflen).0.past == s.past ==> Result(s, buflen, stream) == []
  {
    hide ReadNb, Midway, Safe, Room, Roomy;
    CallSound(s, buflen, stream);
    var (s', rc, p) := Call(s, buflen);
    if rc > 0 {
      DeliveredSize(p, rc, s'.buf[..s'.t.len], buflen);
      assert |s'.past| == |s.past| + |p|;
    }
  }

  // The call that moves a run on to the next packet delivers one, if it does not give it up.
  lemma {:induction false} MovingCall(s: Session, buflen: nat, stream: Bytes, rest: Bytes, k: nat) returns (j: nat)
    requires Sound(s, buflen, stream) && stream == s.past + rest && WholePackets(rest)
    requires NoneGivenUp(s, buflen, stream, k) && Calls(s, buflen, k, stream).past != s.past
    ensures j < k && DeliversAt(s, buflen, stream, j)
    decreases k
  {
    hide Call, WholePacket, Sound;
    j := k - 1;
    var s' := Calls(s, buflen, j, stream);
    if s'.past != s.past {
      j := MovingCall(s, buflen, stream, rest, j);
    } else {
      SoundBuffer(s', buflen, stream);
      assert !GivesUp(s', buflen, stream);
      RunGrows(s, buflen, stream, 0, k);
      PastFits(Calls(s, buflen, k, stream), buflen, stream, s.past, rest);
      CallPending(s', buflen, stream, rest);
    }
  }

  lemma PastFits(s: Session, buflen: nat, stream: Bytes, past: Bytes, rest: Bytes)
    requires Sound(s, buflen, stream) && past <= s.past && s.past != past && stream == past + rest
    ensures rest != []
  {}

  // The session behind a delivered packet
  lemma NextPacket(s: Session, buflen: nat, stream: Bytes, rest: Bytes, j: nat)
    requires Sound(s, buflen, stream) && stream == s.past + rest && s.t.state == 0 && DeliversAt(s, buflen, stream, j)
    ensures rest != [] && PacketBytes(rest) <= |rest|
    ensures var s' := Calls(s, buflen, j + 1, stream);
      && s'.t.state == 0 && s'.t.script == LeftBehind(rest, s.t.script) && Comes(rest, s.t.script, buflen)
      && stream == s'.past + rest[PacketBytes(rest)..]
    ensures Blocking(rest, buflen)
      == Results(s, buflen, stream, j + 1) + Blocking(rest[PacketBytes(rest)..], buflen)
  {
    hide Call, DecodeLength, Sound, Comes, LeftBehind, ReadPacket;
    DeliversOne(s, buflen, stream, rest, j);
    var s' := Calls(s, buflen, j, stream);
    DeliveredWhole(s', buflen, stream, rest);
    SoundBuffer(s', buflen, stream);
    var (s1, rc, p) := Call(s', buflen);
    assert s1 == Calls(s, buflen, j + 1, stream);
    Cut(p, s1.taken, s1.t.data);
    Rejoined(s.past, p, rest[|p|..], rest);
    NoResults(s, buflen, stream, j);
    OneResult(s', buflen, stream, rest);
    assert [] + Result(s', buflen, stream) == Result(s', buflen, stream);
  }

  lemma Cut(p: Bytes, a: Bytes, b: Bytes)
    ensures (p + a + b)[..|p|] == p && (p + a + b)[|p|..] == a + b
  {}

  lemma Rejoined(a: Bytes, b: Bytes, c: Bytes, d: Bytes)
    requires |b| <= |d| && d[..|b|] == b && d[|b|..] == c
    ensures a + d == (a + b) + c
  {
    assert d == b + c;
  }

  lemma OneResult(s: Session, buflen: nat, stream: Bytes, rest: Bytes)
    requires Sound(s, buflen, stream) && stream == s.past + rest && Call(s, buflen).1 > 0
    ensures Result(s, buflen, stream) == [ReadPacket(rest, buflen)]
    ensures ReadPacket(rest, buflen).Packet? && ReadPacket(rest, buflen).taken == |Call(s, buflen).2|
  {
    hide ReadNb, Midway, Safe, Room, Roomy, ReadPacket;
    CallDelivers(s, buflen, stream);
    assert stream[|s.past|..] == rest;
  }

  lemma GivenUpLater(s: Session, buflen: nat, stream: Bytes, j: nat, k: nat)
    requires Sound(s, buflen, stream)
    ensures NoneGivenUp(s, buflen, stream, j + k) <==>
      NoneGivenUp(s, buflen, stream, j) && NoneGivenUp(Calls(s, buflen, j, stream), buflen, stream, k)
  {
    hide Call, Sound, GivesUp;
    var s' := Calls(s, buflen, j, stream);
    forall i: nat ensures Calls(s', buflen, i, stream) == Calls(s, buflen, j + i, stream) {
      CallsAdd(s, buflen, stream, j, i);
    }
    if NoneGivenUp(s, buflen, stream, j) && NoneGivenUp(s', buflen, stream, k) {
      forall i: nat | i < j + k ensures !GivesUp(Calls(s, buflen, i, stream), buflen, stream) {
        if i >= j {
          assert Calls(s', buflen, i - j, stream) == Calls(s, buflen, i, stream);
        }
      }
    }
  }

  // A run that gives no packet up returns the packets of the blocking reader in order, and when
  // it has read the whole stream, all of them.
  lemma {:induction false} RunAgrees(s: Session, buflen: nat, stream: Bytes, rest: Bytes, k: nat)
    requires Sound(s, buflen, stream) && stream == s.past + rest && s.t.state == 0 && WholePackets(rest)
    requires NoneGivenUp(s, buflen, stream, k)
    ensures Results(s, buflen, stream, k) <= Blocking(rest, buflen)
    ensures Calls(s, buflen, k, stream).past == stream ==>
      Results(s, buflen, stream, k) == Blocking(rest, buflen) && AllCome(rest, s.t.script, buflen)
    decreases |rest|
  {
    hide Call, Sound, Comes, LeftBehind, WholePacket, ReadPacket, NoneGivenUp, Calls, Results, Blocking;
    if Calls(s, buflen, k, stream).past == s.past {
      NoResults(s, buflen, stream, k);
      NothingBlocking(buflen);
    } else {
      var j := MovingCall(s, buflen, stream, rest, k);
      NextPacket(s, buflen, stream, rest, j);
      var s1, more := Calls(s, buflen, j + 1, stream), rest[PacketBytes(rest)..];
      CallsAdd(s, buflen, stream, j + 1, k - (j + 1));
      GivenUpLater(s, buflen, stream, j + 1, k - (j + 1));
      RunAgrees(s1, buflen, stream, more, k - (j + 1));
      Prefixes(Results(s, buflen, stream, j + 1), Results(s1, buflen, stream, k - (j + 1)), Blocking(more, buflen));
    }
  }

  lemma NothingBlocking(buflen: nat)
    ensures Blocking([], buflen) == []
  {}

  lemma Prefixes(a: seq<ReadResult>, b: seq<ReadResult>, c: seq<ReadResult>)
    requires b <= c
    ensures a + b <= a + c
  {}

  lemma {:induction false} AllDelivered(s: Session, buflen: nat, stream: Bytes, rest: Bytes) returns (k: nat)
    requires Sound(s, buflen, stream) && stream == s.past + rest && s.t.state == 0 && WholePackets(rest)
    requires AllCome(rest, s.t.script, buflen)
    ensures Finishes(s, buflen, stream, k)
    decreases |rest|
  {
    hide Call, Sound, Comes, LeftBehind, NoneGivenUp;
    if rest == [] {
      k := 0;
      NoneYet(s, buflen, stream);
    } else {
      PacketDelivered(s, buflen, stream, rest);
      var j: nat :| DeliversAt(s, buflen, stream, j);
      NextPacket(s, buflen, stream, rest, j);
      NoneBefore(s, buflen, stream, j);
      var s1 := Calls(s, buflen, j + 1, stream);
      var more := AllDelivered(s1, buflen, stream, rest[PacketBytes(rest)..]);
      k := j + 1 + more;
      CallsAdd(s, buflen, stream, j + 1, more);
      GivenUpLater(s, buflen, stream, j + 1, more);
    }
  }

  lemma NoneYet(s: Session, buflen: nat, stream: Bytes)
    requires Sound(s, buflen, stream)
    ensures NoneGivenUp(s, buflen, stream, 0) && s.past + [] == s.past
  {}

  lemma NoneBefore(s: Session, buflen: nat, stream: Bytes, j: nat)
    requires Sound(s, buflen, stream) && DeliversAt(s, buflen, stream, j)
    ensures NoneGivenUp(s, buflen, stream, j + 1)
  {
    hide Call, Sound;
    forall i: nat | i < j + 1 ensures !GivesUp(Calls(s, buflen, i, stream), buflen, stream) {
      var s' := Calls(s, buflen, i, stream);
      SoundBuffer(s', buflen, stream);
      if i < j {
        RunGrows(s, buflen, stream, 0, i);
        RunGrows(s, buflen, stream, 0, i + 1);
        RunGrows(s, buflen, stream, i, j);
        RunGrows(s, buflen, stream, i + 1, j);
        assert Calls(s, buflen, i + 1, stream) == Call(s', buflen).0;
      }
    }
  }

  // A stream of whole packets, over any network: the calls return the packets of the blocking
  // reader in order as long as they give none up, and get the whole stream through, then with
  // all those packets, exactly when every packet comes.
  lemma StreamDelivered(stream: Bytes, script: seq<Reply>, buf: Bytes, buflen: nat)
    requires Roomy(stream, |buf|) && buflen <= |buf| && WholePackets(stream)
    ensures Sound(Opened(stream, script, buf), buflen, stream)
    ensures (exists k: nat :: Finishes(Opened(stream, script, buf), buflen, stream, k))
      <==> AllCome(stream, script, buflen)
    ensures forall k: nat :: NoneGivenUp(Opened(stream, script, buf), buflen, stream, k) ==>
      Results(Opened(stream, script, buf), buflen, stream, k) <= Blocking(stream, buflen)
    ensures forall k: nat :: Finishes(Opened(stream, script, buf), buflen, stream, k) ==>
      Results(Opened(stream, script, buf), buflen, stream, k) == Blocking(stream, buflen)
  {
    hide Call, Sound, AllCome, WholePackets, Blocking, Results, NoneGivenUp, Calls, Roomy;
    var s := Opened(stream, script, buf);
    OpenedSound(stream, script, buf, buflen);
    assert [] + stream == stream;
    forall k: nat | NoneGivenUp(s, buflen, stream, k)
      ensures Results(s, buflen, stream, k) <= Blocking(stream, buflen)
      ensures Calls(s, buflen, k, stream).past == stream ==>
        Results(s, buflen, stream, k) == Blocking(stream, buflen) && AllCome(stream, script, buflen)
    {
      RunAgrees(s, buflen, stream, stream, k);
    }
    if AllCome(stream, script, buflen) {
      var k := AllDelivered(s, buflen, stream, stream);
    }
  }

  // ---- Packets that do not get through ----

  // A packet without a body never does, whatever the replies: a PINGRESP is one.
  lemma EmptyBodyLost(stream: Bytes, script: seq<Reply>, buf: Bytes, buflen: nat, k: nat)
    requires Roomy(stream, |buf|) && buflen <= |buf|
    requires stream != [] && DecodeLength(stream[1..], 4).value == 0
    ensures Sound(Opened(stream, script, buf), buflen, stream)
    ensures !DeliversAt(Opened(stream, script, buf), buflen, stream, k)
  {
    FirstPacketDelivered(stream, script, buf, buflen);
  }

  // A PINGRESP brings the reader to the empty body with its first call.
  lemma PingrespArrives(rest: Bytes, buf: Bytes, buflen: nat)
    requires Roomy([0xD0, 0] + rest, |buf|) && 2 <= buflen <= |buf|
    ensures var stream, script := [0xD0, 0] + rest, [Upto(1), Upto(1)];
      && TypeOf(0xD0) == PINGRESP && DecodeLength(stream[1..], 4).value == 0
      && Sound(Opened(stream, script, buf), buflen, stream)
      && var s := Calls(Opened(stream, script, buf), buflen, 1, stream);
      && AtEmptyBody(s.t) && s.taken == [0xD0, 0] && s.t.data == rest
      && ReadPacket(stream, buflen) == Packet(PINGRESP, [0xD0, 0], 2)
  {
    hide HeaderStage, LengthStage, Overwrite, ReadPacket, DecodeLength, EncodeLength;
    var stream, script: seq<Reply> := [0xD0, 0] + rest, [Upto(1), Upto(1)];
    var s := Opened(stream, script, buf);
    OpenedSound(stream, script, buf, buflen);
    PingHeader(rest, buf);
    PingLength(rest, Overwrite(buf, 0, [0xD0]), buflen);
    ReadsHeader(s.t, buf, buflen);
    assert Calls(s, buflen, 0, stream) == s;
    assert stream[..2] == [0xD0, 0] && [] + stream[..2] == stream[..2];
    PingRead(rest, buflen);
  }

  lemma PingRead(rest: Bytes, buflen: nat)
    requires buflen >= 2
    ensures var stream := [0xD0, 0] + rest;
      && DecodeLength(stream[1..], 4).value == 0 && ReadPacket(stream, buflen) == Packet(PINGRESP, [0xD0, 0], 2)
  {
    var stream := [0xD0, 0] + rest;
    assert stream[1] == 0 && EncodeLength(0) == [0] && stream[2..2] == [];
  }

  lemma PingHeader(rest: Bytes, buf: Bytes)
    requires 1 <= |buf|
    ensures HeaderStage(Trp(0, 0, 0, 0, [Upto(1), Upto(1)], [0xD0, 0] + rest), buf)
      == Next(Trp(1, 0, 0, 0, [Upto(1)], [0] + rest), Overwrite(buf, 0, [0xD0]))
  {
    var data := [0xD0, 0] + rest;
    assert data[..1] == [0xD0] && data[1..] == [0] + rest;
  }

  lemma PingLength(rest: Bytes, buf: Bytes, buflen: nat)
    requires 2 <= buflen <= |buf|
    ensures FieldRoom(Trp(1, 0, 0, 0, [Upto(1)], [0] + rest), |buf|)
    ensures var o := LengthStage(Trp(1, 0, 0, 0, [Upto(1)], [0] + rest), buf, buflen);
      o.Next? && o.t == Trp(2, 128, 0, 2, [], rest)
  {
    var t := Trp(1, 1, 0, 0, [Upto(1)], [0] + rest);
    var f := Fetch(t.(len := 1), 1);
    assert f == Fetched(1, [0], Trp(1, 1, 0, 1, [], rest));
    LengthLoopByte(t, f.t, 0);
    assert EncodeLength(0) == [0];
    hide Overwrite;
  }

  // So many stalls
  function Stalls(n: nat): (s: seq<Reply>)
    ensures |s| == n && ErrorFree(s)
  {
    seq(n, _ => Again)
  }

  lemma {:induction false} StallsThen(n: nat, rest: seq<Reply>)
    requires rest != [] && !Stall(rest[0]) && !rest[0].Error?
    ensures OneByOne(Stalls(n) + rest, 1) == Replies(n, 1, rest[1..])
  {
    var s := Stalls(n) + rest;
    if n == 0 {
      assert s == rest;
    } else {
      assert s[1..] == Stalls(n - 1) + rest;
      StallsThen(n - 1, rest);
    }
  }

  // A PUBACK of identifier 1 that comes with n stalls inside its one-byte length field is lost
  // exactly from four stalls on. The blocking reader returns it.
  lemma StalledPuback(n: nat, buf: Bytes, buflen: nat)
    requires Roomy([0x40, 2, 0, 1], |buf|) && 4 <= buflen <= |buf|
    ensures var stream, script := [0x40, 2, 0, 1], [Upto(1)] + Stalls(n) + [Upto(1), Upto(2)];
      && Sound(Opened(stream, script, buf), buflen, stream)
      && ReadPacket(stream, buflen) == Packet(PUBACK, stream, 4)
      && ((exists k: nat :: DeliversAt(Opened(stream, script, buf), buflen, stream, k)) <==> n <= 3)
  {
    hide Call, DecodeLength, TypeOf, EncodeLength, OneByOne, Sound, Roomy, ReadPacket, HeaderRest, Total, DeliversAt;
    var stream: Bytes := [0x40, 2, 0, 1];
    var rest: seq<Reply> := Stalls(n) + [Upto(1), Upto(2)];
    var script := [Upto(1)] + rest;
    assert [Upto(1)] + Stalls(n) + [Upto(1), Upto(2)] == script;
    FirstPacketDelivered(stream, script, buf, buflen);
    PubackRead(buflen);
    PubackReplies(n, rest);
  }

  lemma PubackRead(buflen: nat)
    requires 4 <= buflen
    ensures var stream: Bytes := [0x40, 2, 0, 1];
      && ReadPacket(stream, buflen) == Packet(PUBACK, stream, 4)
      && DecodeLength(stream[1..], 4) == Decoded(Complete, 2, 1) && WholePacket(stream) && PacketSize(2) == 4
  {
    var stream: Bytes := [0x40, 2, 0, 1];
    assert stream[1] == 2 && EncodeLength(2) == [2] && stream[2..4] == [0, 1];
    assert [0x40, 2] + [0, 1] == stream;
  }

  lemma PubackReplies(n: nat, rest: seq<Reply>)
    requires rest == Stalls(n) + [Upto(1), Upto(2)]
    ensures HeaderRest([Upto(1)] + rest) == Some(rest)
    ensures OneByOne(rest, 1) == Replies(n, 1, [Upto(2)]) && Total([Upto(2)]) == 2
  {
    var script: seq<Reply> := [Upto(1)] + rest;
    assert script[0] == Upto(1) && script[1..] == rest;
    StallsThen(n, [Upto(1), Upto(2)]);
    assert [Upto(1), Upto(2)][1..] == [Upto(2)];
  }
}
