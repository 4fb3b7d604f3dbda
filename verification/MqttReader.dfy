/**
  The two packet readers of src/libmqtt/MQTTPacket.c: the blocking one, and the resumable one
  that keeps its progress in the transport between calls.
*/
module MqttReader {
  import opened Common
  import opened MqttPacket

  // ---- The blocking reader ----

  datatype ReadResult = Packet(msgType: int, bytes: Bytes, taken: nat) | Failed

  // The remaining length is put back in its shortest form; what MQTTPacket_decode returned is
  // not looked at.
  function ReadPacket(stream: Bytes, buflen: nat): ReadResult {
    if stream == [] then Failed else
    var d := DecodeLength(stream[1..], 4);
    var head := [stream[0]] + EncodeLength(d.value);
    var taken := 1 + d.used + d.value;
    if |head| + d.value > buflen || taken > |stream| then Failed
    else Packet(TypeOf(stream[0]), head + stream[1 + d.used..taken], taken)
  }

  lemma {:induction false} DecodeBound(s: Bytes, budget: nat)
    ensures DecodeLength(s, budget).value < Power128(budget)
  {
    if budget > 0 && s != [] && s[0] >= 128 {
      DecodeBound(s[1..], budget - 1);
    }
  }

  lemma {:induction false} EncodeFits(n: nat, budget: nat)
    requires 0 < budget && n < Power128(budget)
    ensures |EncodeLength(n)| <= budget
  {
    if n >= 128 {
      EncodeFits(n / 128, budget - 1);
    }
  }

  lemma FieldFits(s: Bytes)
    ensures |EncodeLength(DecodeLength(s, 4).value)| <= 4
  {
    DecodeBound(s, 4);
    EncodeFits(DecodeLength(s, 4).value, 4);
  }

  // The header and the length field, put back in its shortest form, fit a buffer of n bytes.
  predicate HeadFits(stream: Bytes, n: nat) {
    stream != [] ==> 1 + |EncodeLength(DecodeLength(stream[1..], 4).value)| <= n
  }

  // The header byte and the length field, as MQTTPacket_read leaves them in the buffer
  method ReadHead(buf: array<Byte>, src: Source) returns (len: nat, remLen: nat)
    requires HeadFits(src.data, buf.Length)
    modifies buf, src
    ensures old(src.data) == [] ==> len == 0
    ensures old(src.data) != [] ==>
      var d := DecodeLength(old(src.data)[1..], 4);
      var head := [old(src.data)[0]] + EncodeLength(d.value);
      && remLen == d.value && len == |head| <= 5 && src.data == old(src.data)[1 + d.used..]
      && buf[..] == Overwrite(old(buf[..]), 0, head)
  {
    var h := src.Get(1);
    if |h| != 1 {
      return 0, 0;
    }
    FieldFits(old(src.data)[1..]);
    hide Overwrite, EncodeLength, DecodeLength;
    len := WriteBytes(buf, 0, h);
    var d := Decode(src);
    var n := Encode(buf, len, d.value);
    OverwriteTwice(old(buf[..]), 0, h, EncodeLength(d.value));
    assert h == [old(src.data)[0]];
    len, remLen := len + n, d.value;
  }

  // MQTTPacket_read. The buffer must have room for the header and the length field, which are
  // written before the size of the packet is checked.
  method Read(buf: array<Byte>, buflen: nat, src: Source) returns (rc: int)
    requires HeadFits(src.data, buf.Length) && buflen <= buf.Length
    modifies buf, src
    ensures match ReadPacket(old(src.data), buflen) {
      case Failed => rc == -1
      case Packet(t, bytes, taken) => rc == t && bytes <= buf[..] && src.data == old(src.data)[taken..]
    }
  {
    hide Overwrite, EncodeLength, DecodeLength, ReadPacket, HeadFits;
    ghost var stream, was := src.data, buf[..];
    var len, remLen := ReadHead(buf, src);
    if len == 0 {
      NothingRead(buflen);
      return -1;
    }
    PacketRead(stream, buflen);
    if remLen + len > buflen {
      return -1;
    }
    ghost var d := DecodeLength(stream[1..], 4);
    ghost var head := [stream[0]] + EncodeLength(d.value);
    ghost var rest := src.data;
    var body := src.Get(remLen);
    var _ := WriteBytes(buf, len, body);
    OverwriteTwice(was, 0, head, body);
    OverwriteStart(was, head + body);
    if |body| != remLen {
      return -1;
    }
    SlicePast(stream, 1 + d.used, d.value);
    assert (head + body)[0] == stream[0];
    rc := TypeOf(buf[0]);
  }

  lemma NothingRead(buflen: nat)
    ensures ReadPacket([], buflen) == Failed
  {}

  lemma PacketRead(stream: Bytes, buflen: nat)
    requires stream != []
    ensures var d := DecodeLength(stream[1..], 4);
      var head := [stream[0]] + EncodeLength(d.value);
      ReadPacket(stream, buflen) ==
        if |head| + d.value > buflen || 1 + d.used + d.value > |stream| then Failed
        else Packet(TypeOf(stream[0]), head + stream[1 + d.used..1 + d.used + d.value], 1 + d.used + d.value)
    ensures 1 + DecodeLength(stream[1..], 4).used <= |stream|
  {}

  lemma SlicePast(s: Bytes, i: nat, n: nat)
    requires i <= |s|
    ensures i + n <= |s| ==> s[i..][..n] == s[i..i + n] && s[i..][n..] == s[i + n..]
  {}

  // ---- The resumable reader ----

  // What the transport's getfn does when called: fail, ask to be called again, or hand out up
  // to so many bytes
  datatype Reply = Error | Again | Upto(size: nat)

  // MQTTTransport, with what the network still has in store: its replies and its bytes
  datatype Trp = Trp(state: nat, multiplier: nat, remLen: nat, len: nat, script: seq<Reply>, data: Bytes)

  // What one call of getfn gives
  datatype Fetched = Fetched(rc: int, bytes: Bytes, t: Trp)

  function Fetch(t: Trp, count: nat): (f: Fetched)
    ensures f.rc == -1 || (f.rc == |f.bytes| <= count && t.data == f.bytes + f.t.data)
    ensures f.rc <= 0 ==> f.t.data == t.data
    ensures f.t == t.(script := f.t.script, data := f.t.data)
  {
    if t.script == [] then Fetched(0, [], t) else
    var t' := t.(script := t.script[1..]);
    match t.script[0]
    case Error => Fetched(-1, [], t')
    case Again => Fetched(0, [], t')
    case Upto(size) =>
      var n := if size <= count then size else count;
      var k := if n <= |t.data| then n else |t.data|;
      Fetched(k, t.data[..k], t'.(data := t.data[k..]))
  }

  // The outcome of a stage: the call returns, or goes on to the next stage
  datatype Outcome = Return(t: Trp, buf: Bytes, rc: int) | Next(t: Trp, buf: Bytes)

  function Abort(t: Trp, buf: Bytes): Outcome {
    Return(t.(state := 0), buf, -1)
  }

  // Inside the length field: len attempts gave a number below multiplier
  predicate LengthSafe(t: Trp) {
    t.len <= 4 && t.remLen < t.multiplier <= Power128(t.len)
  }

  // What keeps the reader inside a buffer of n bytes, whatever the state it is in
  predicate Safe(t: Trp, n: nat) {
    && (t.state == 1 && t.len > 0 ==> LengthSafe(t))
    && (t.state == 2 ==> t.len + t.remLen <= n)
  }

  lemma {:induction false} ProductMonotonic(a: nat, b: nat, c: nat)
    requires b <= c
    ensures Product(a, b) <= Product(a, c)
    ensures Product(a, 127) == 127 * a
  {
    if b < c {
      ProductMonotonic(a, b, c - 1);
    }
    ProductIsTimes(a, 127);
  }

  lemma ScaledDigit(remLen: nat, multiplier: nat, c: Byte)
    requires remLen < multiplier
    ensures remLen + Product(multiplier, c % 128) < 128 * multiplier
  {
    ProductMonotonic(multiplier, c % 128, 127);
  }

  // case 0: the header byte
  function HeaderStage(t: Trp, buf: Bytes): Outcome
    requires 1 <= |buf|
  {
    var f := Fetch(t, 1);
    if f.rc == -1 then Abort(f.t, buf)
    else if f.rc == 0 then Return(f.t, buf, 0)
    else Next(f.t.(len := 0, state := 1), Overwrite(buf, 0, f.bytes))
  }

  // t after one more length byte c has arrived, leaving t' of the transport
  function TakeByte(t: Trp, t': Trp, c: Byte): Trp
    requires LengthSafe(t)
  {
    ScaledDigit(t.remLen, t.multiplier, c);
    t'.(remLen := t.remLen + Product(t.multiplier, c % 128), multiplier := 128 * t.multiplier)
  }

  // The loop of MQTTPacket_decodenb
  function LengthLoop(t: Trp): (r: (Trp, int))
    requires LengthSafe(t)
    ensures r.1 == -1 || (r.1 >= 0 && LengthSafe(r.0) && r.0.len > 0)
    ensures r.0.state == t.state
    decreases 5 - t.len
  {
    var t1 := t.(len := t.len + 1);
    if t1.len > 4 then (t1, -1) else
    var f := Fetch(t1, 1);
    if f.rc <= 0 then (f.t, f.rc) else
    var c := f.bytes[0];
    ScaledDigit(t.remLen, t.multiplier, c);
    var t2 := TakeByte(t, f.t, c);
    if c < 128 then (t2, t2.len) else LengthLoop(t2)
  }

  // MQTTPacket_decodenb
  function DecodeNb(t: Trp): (r: (Trp, int))
    requires t.len > 0 ==> LengthSafe(t)
    ensures r.1 == -1 || (r.1 >= 0 && LengthSafe(r.0) && r.0.len > 0)
    ensures r.0.state == t.state
  {
    LengthLoop(if t.len == 0 then t.(multiplier := 1, remLen := 0) else t)
  }

  lemma LengthFits(t: Trp)
    requires LengthSafe(t)
    ensures |EncodeLength(t.remLen)| <= 4
  {
    assert Power128(1) == 128 && Power128(2) == 16384 && Power128(3) == 2097152 && Power128(4) == LENGTH_LIMIT;
    EncodeFits(t.remLen, 4);
  }

  // The length field, if this call completes it, fits behind the header in n bytes.
  predicate FieldRoom(t: Trp, n: nat)
    requires t.len > 0 ==> LengthSafe(t)
  {
    var (t1, rc) := DecodeNb(t);
    rc > 0 ==> 1 + |EncodeLength(t1.remLen)| <= n
  }

  // A buffer of n bytes has room for what the call writes before it looks at the size of the
  // packet: the header, and the length field in its shortest form.
  predicate Room(t: Trp, n: nat)
    requires Safe(t, n)
  {
    && 1 <= n
    && (t.state == 1 ==> FieldRoom(t, n))
    && (t.state != 1 && t.state != 2 ==>
      var f := Fetch(t.(state := 0), 1); f.rc > 0 ==> FieldRoom(f.t.(len := 0, state := 1), n))
  }

  // case 1: the remaining length
  function LengthStage(t: Trp, buf: Bytes, buflen: nat): (o: Outcome)
    requires 1 <= |buf| && buflen <= |buf| && t.state == 1 && Safe(t, |buf|) && FieldRoom(t, |buf|)
    ensures Safe(o.t, |buf|) && |o.buf| == |buf| && (o.Next? ==> o.t.state == 2)
  {
    var (t1, rc) := DecodeNb(t);
    if rc == -1 then Abort(t1, buf)
    else if rc == 0 then Return(t1, buf, 0)
    else
      var field := EncodeLength(t1.remLen);
      var t2 := t1.(len := 1 + |field|);
      var buf2 := Overwrite(buf, 1, field);
      if t2.remLen + t2.len > buflen then Abort(t2, buf2)
      else Next(t2.(state := 2), buf2)
  }

  // case 2: the rest of the packet
  function BodyStage(t: Trp, buf: Bytes): (o: Outcome)
    requires 1 <= |buf| && t.state == 2 && Safe(t, |buf|)
    ensures o.Return? && Safe(o.t, |buf|) && |o.buf| == |buf|
  {
    var f := Fetch(t, t.remLen);
    if f.rc == -1 then Abort(f.t, buf)
    else if f.rc == 0 then Return(f.t, buf, 0)
    else
      var t1 := f.t.(remLen := t.remLen - f.rc, len := t.len + f.rc);
      var buf1 := Overwrite(buf, t.len, f.bytes);
      if t1.remLen > 0 then Return(t1, buf1, 0)
      else Return(t1.(state := 0), buf1, TypeOf(buf1[0]))
  }

  // MQTTPacket_readnb: the switch falls through from the saved state on.
  function ReadNb(t: Trp, buf: Bytes, buflen: nat): (o: Outcome)
    requires buflen <= |buf| && Safe(t, |buf|) && Room(t, |buf|)
    ensures o.Return? && Safe(o.t, |buf|) && |o.buf| == |buf|
  {
    var o0 := if t.state == 1 || t.state == 2 then Next(t, buf) else HeaderStage(t.(state := 0), buf);
    var o1 := if o0.Next? && o0.t.state == 1 then LengthStage(o0.t, o0.buf, buflen) else o0;
    if o1.Next? then BodyStage(o1.t, o1.buf) else o1
  }

  // The transport structure, updated in place across calls
  class Transport {
    var state: nat
    var multiplier: nat
    var remLen: nat
    var len: nat
    var script: seq<Reply>
    var data: Bytes

    constructor (script: seq<Reply>, data: Bytes)
      ensures Value() == Trp(0, 0, 0, 0, script, data)
    {
      state, multiplier, remLen, len := 0, 0, 0, 0;
      this.script, this.data := script, data;
    }

    function Value(): Trp
      reads this
    {
      Trp(state, multiplier, remLen, len, script, data)
    }

    method GetFn(count: nat) returns (rc: int, bytes: Bytes)
      modifies this`script, this`data
      ensures Fetched(rc, bytes, Value()) == Fetch(old(Value()), count)
    {
      if script == [] {
        return 0, [];
      }
      var reply := script[0];
      script := script[1..];
      match reply
      case Error => return -1, [];
      case Again => return 0, [];
      case Upto(size) =>
        var n := if size <= count then size else count;
        var k := if n <= |data| then n else |data|;
        rc, bytes := k, data[..k];
        data := data[k..];
    }

    method DecodeNonBlocking() returns (rc: int)
      requires len > 0 ==> LengthSafe(Value())
      modifies this
      ensures (Value(), rc) == DecodeNb(old(Value()))
    {
      if len == 0 {
        multiplier, remLen := 1, 0;
      }
      ghost var start := Value();
      var done := false;
      rc := -1;
      hide LengthLoop, LengthSafe;
      while !done
        invariant if done then LengthLoop(start) == (Value(), rc)
          else LengthSafe(Value()) && LengthSafe(start) && LengthLoop(start) == LengthLoop(Value())
        decreases !done, 5 - len
      {
        done, rc := LengthByte();
      }
    }

    // The body of its loop
    method LengthByte() returns (done: bool, rc: int)
      requires LengthSafe(Value())
      modifies this
      ensures done ==> LengthLoop(old(Value())) == (Value(), rc)
      ensures !done ==>
        && LengthSafe(Value()) && LengthLoop(old(Value())) == LengthLoop(Value())
        && len == old(len) + 1 <= 4
    {
      hide LengthLoop, Fetch, Product, LengthSafe;
      ghost var t := Value();
      LengthLoopEnd(t);
      len := len + 1;
      if len > 4 {
        return true, -1;
      }
      var frc, c := GetFn(1);
      if frc <= 0 {
        return true, frc;
      }
      LengthLoopByte(t, Value(), c[0]);
      remLen := remLen + Product(multiplier, c[0] % 128);
      multiplier := 128 * multiplier;
      done := c[0] < 128;
      rc := len;
    }

    method ReadHeader(buf: array<Byte>) returns (done: bool, rc: int)
      requires 1 <= buf.Length
      modifies this, buf
      ensures (if done then Return(Value(), buf[..], rc) else Next(Value(), buf[..]))
        == HeaderStage(old(Value()), old(buf[..]))
    {
      var frc, h := GetFn(1);
      if frc == -1 {
        state := 0;
        return true, -1;
      }
      if frc == 0 {
        return true, 0;
      }
      var _ := WriteBytes(buf, 0, h);
      len := 0;
      state := 1;
      done, rc := false, 0;
    }

    method ReadLength(buf: array<Byte>, buflen: nat) returns (done: bool, rc: int)
      requires 1 <= buf.Length && buflen <= buf.Length && state == 1 && Safe(Value(), buf.Length)
      requires FieldRoom(Value(), buf.Length)
      modifies this, buf
      ensures (if done then Return(Value(), buf[..], rc) else Next(Value(), buf[..]))
        == LengthStage(old(Value()), old(buf[..]), buflen)
    {
      var frc := DecodeNonBlocking();
      if frc == -1 {
        state := 0;
        return true, -1;
      }
      if frc == 0 {
        return true, 0;
      }
      hide EncodeLength, Overwrite, DecodeNb, LengthSafe;
      var n := Encode(buf, 1, remLen);
      len := 1 + n;
      if remLen + len > buflen {
        state := 0;
        return true, -1;
      }
      state := 2;
      done, rc := false, 0;
    }

    method ReadBody(buf: array<Byte>) returns (rc: int)
      requires 1 <= buf.Length && state == 2 && Safe(Value(), buf.Length)
      modifies this, buf
      ensures Return(Value(), buf[..], rc) == BodyStage(old(Value()), old(buf[..]))
    {
      var frc, body := GetFn(remLen);
      if frc == -1 {
        state := 0;
        return -1;
      }
      if frc == 0 {
        return 0;
      }
      var _ := WriteBytes(buf, len, body);
      remLen := remLen - frc;
      len := len + frc;
      if remLen > 0 {
        return 0;
      }
      state := 0;
      rc := TypeOf(buf[0]);
    }

    // MQTTPacket_readnb
    method ReadNonBlocking(buf: array<Byte>, buflen: nat) returns (rc: int)
      requires buflen <= buf.Length && Safe(Value(), buf.Length) && Room(Value(), buf.Length)
      modifies this, buf
      ensures Return(Value(), buf[..], rc) == ReadNb(old(Value()), old(buf[..]), buflen)
    {
      var done := false;
      rc := 0;
      if state != 1 && state != 2 {
        state := 0;
        done, rc := ReadHeader(buf);
      }
      if !done && state == 1 {
        done, rc := ReadLength(buf, buflen);
      }
      if !done {
        rc := ReadBody(buf);
      }
    }
  }

  lemma LengthLoopEnd(t: Trp)
    requires LengthSafe(t)
    ensures t.len <= 4
    ensures t.len == 4 ==> LengthLoop(t) == (t.(len := 5), -1)
    ensures t.len < 4 ==> var f := Fetch(t.(len := t.len + 1), 1); f.rc <= 0 ==> LengthLoop(t) == (f.t, f.rc)
  {}

  lemma LengthLoopByte(t: Trp, t1: Trp, c: Byte)
    requires LengthSafe(t) && t.len < 4
    requires var f := Fetch(t.(len := t.len + 1), 1); f.rc > 0 && f.t == t1 && f.bytes[0] == c
    ensures var t2 := t1.(remLen := t.remLen + Product(t.multiplier, c % 128), multiplier := 128 * t.multiplier);
      if c < 128 then LengthLoop(t) == (t2, t2.len) else LengthSafe(t2) && LengthLoop(t) == LengthLoop(t2)
  {
    ScaledDigit(t.remLen, t.multiplier, c);
  }

  // ---- Every run of the resumable reader agrees with the blocking one ----

  // x, the bytes read of a length field, are all continued, and t has accumulated them.
  predicate Partial(t: Trp, x: Bytes) {
    && |x| <= t.len <= 4
    && (forall i :: 0 <= i < |x| ==> x[i] >= 128)
    && t.multiplier == Power128(|x|)
    && t.remLen == DecodeLength(x, 4).value
  }

  // The invariant between calls: taken are the bytes of the unfinished packet read so far.
  predicate Midway(t: Trp, buf: Bytes, buflen: nat, taken: Bytes)
    requires 1 <= |buf| && buflen <= |buf|
  {
    match t.state
    case 0 => taken == []
    case 1 =>
      && taken != [] && buf[0] == taken[0]
      && (if t.len == 0 then |taken| == 1 else Partial(t, taken[1..]))
    case 2 =>
      && taken != []
      && var d := DecodeLength(taken[1..], 4);
      && var head := [taken[0]] + EncodeLength(d.value);
      && d.status.Complete?
      && t.len == |head| + |taken| - 1 - d.used
      && t.remLen == d.value - (|taken| - 1 - d.used)
      && |head| + d.value <= buflen
      && buf[..t.len] == head + taken[1 + d.used..]
    case _ => false
  }

  lemma {:induction false} DecodeAppend(x: Bytes, c: Byte, budget: nat)
    requires |x| < budget && forall i :: 0 <= i < |x| ==> x[i] >= 128
    ensures DecodeLength(x, budget).status.Starved? && DecodeLength(x, budget).used == |x|
    ensures var d := DecodeLength(x + [c], budget);
      && d.value == DecodeLength(x, budget).value + Product(Power128(|x|), c % 128)
      && d.used == |x| + 1
      && (c < 128 ==> d.status.Complete?)
  {
    if x == [] {
      assert x + [c] == [c];
      DecodeOne(c, budget);
      ProductIsTimes(1, c % 128);
    } else {
      var t := x[1..];
      assert x + [c] == [x[0]] + (t + [c]);
      DecodeAppend(t, c, budget - 1);
      DecodeStep(x, budget);
      DecodeStep(x + [c], budget);
      hide DecodeLength;
      assert (x + [c])[1..] == t + [c];
      ScaleProduct(128, Power128(|t|), c % 128);
    }
  }

  lemma DecodeOne(c: Byte, budget: nat)
    requires 0 < budget
    ensures DecodeLength([], budget) == Decoded(Starved, 0, 0)
    ensures var d := DecodeLength([c], budget);
      d.value == c % 128 && d.used == 1 && (c < 128 ==> d.status.Complete?)
  {}

  lemma DecodeStep(s: Bytes, budget: nat)
    requires 0 < budget && s != [] && s[0] >= 128
    ensures var d := DecodeLength(s[1..], budget - 1);
      DecodeLength(s, budget) == Decoded(d.status, s[0] - 128 + 128 * d.value, 1 + d.used)
  {}

  lemma {:induction false} DecodeExtend(x: Bytes, y: Bytes, budget: nat)
    requires DecodeLength(x, budget).status.Complete?
    ensures DecodeLength(x + y, budget) == DecodeLength(x, budget)
  {
    if x[0] >= 128 {
      DecodeExtend(x[1..], y, budget - 1);
      assert (x + y)[1..] == x[1..] + y;
    }
  }

  predicate Consumed(t: Trp, n: Bytes, t': Trp) {
    t.data == n + t'.data
  }

  lemma TakeByteAgrees(t: Trp, t': Trp, x: Bytes, c: Byte)
    requires LengthSafe(t) && Partial(t, x) && t.len < 4 && t'.len == t.len + 1
    ensures var t2 := TakeByte(t, t', c);
      if c >= 128 then LengthSafe(t2) && Partial(t2, x + [c])
      else DecodeLength(x + [c], 4) == Decoded(Complete, t2.remLen, |x + [c]|)
  {
    DecodeAppend(x, c, 4);
    ScaledDigit(t.remLen, t.multiplier, c);
  }

  // What the length field loop owes: the bytes n it read behind x are accounted for.
  predicate LoopOwes(t: Trp, x: Bytes, n: Bytes)
    requires LengthSafe(t)
  {
    var (t', rc) := LengthLoop(t);
    && Consumed(t, n, t')
    && (rc == 0 ==> Partial(t', x + n))
    && (rc > 0 ==> DecodeLength(x + n, 4) == Decoded(Complete, t'.remLen, |x + n|))
  }

  lemma LengthLoopStops(t: Trp, x: Bytes)
    requires LengthSafe(t) && Partial(t, x)
    requires t.len == 4 || Fetch(t.(len := t.len + 1), 1).rc <= 0
    ensures LoopOwes(t, x, [])
  {
    assert x + [] == x && t.data == [] + t.data;
  }

  lemma LengthLoopTakes(t: Trp, x: Bytes, f: Fetched, c: Byte, t2: Trp)
    requires LengthSafe(t) && Partial(t, x) && t.len < 4
    requires f == Fetch(t.(len := t.len + 1), 1) && f.rc > 0 && c == f.bytes[0] && t2 == TakeByte(t, f.t, c)
    ensures t.data == [c] + t2.data
    ensures c < 128 ==> LoopOwes(t, x, [c])
    ensures c >= 128 ==> LengthSafe(t2) && Partial(t2, x + [c]) && LengthLoop(t) == LengthLoop(t2)
  {
    assert f.bytes == [c];
    TakeByteAgrees(t, f.t, x, c);
  }

  lemma LoopOwesMore(t: Trp, x: Bytes, c: Byte, t2: Trp, n: Bytes)
    requires LengthSafe(t) && LengthSafe(t2) && LengthLoop(t) == LengthLoop(t2)
    requires t.data == [c] + t2.data
    requires LoopOwes(t2, x + [c], n)
    ensures LoopOwes(t, x, [c] + n)
  {
    hide LengthLoop, LengthSafe, DecodeLength, Partial;
    assert x + ([c] + n) == x + [c] + n;
    assert t.data == [c] + (n + LengthLoop(t2).0.data);
  }

  lemma {:induction false} LengthLoopAgrees(t: Trp, x: Bytes) returns (n: Bytes)
    requires LengthSafe(t) && Partial(t, x)
    ensures LoopOwes(t, x, n)
    decreases 5 - t.len
  {
    hide LoopOwes, LengthLoop, Partial, DecodeLength;
    var f := Fetch(t.(len := t.len + 1), 1);
    n := [];
    if t.len == 4 || f.rc <= 0 {
      LengthLoopStops(t, x);
    } else {
      var c := f.bytes[0];
      var t2 := TakeByte(t, f.t, c);
      LengthLoopTakes(t, x, f, c, t2);
      n := [c];
      if c >= 128 {
        var n' := LengthLoopAgrees(t2, x + [c]);
        LoopOwesMore(t, x, c, t2, n');
        n := [c] + n';
      }
    }
  }

  // p are the bytes of one packet, with a proper length field and a body, and the blocking
  // reader makes the same of them.
  predicate Delivered(p: Bytes, msgType: int, bytes: Bytes, buflen: nat) {
    && p != []
    && var d := DecodeLength(p[1..], 4);
    && d.status.Complete? && d.value > 0
    && ReadPacket(p, buflen) == Packet(msgType, bytes, |p|)
  }

  // A completed packet is the blocking reader's.
  lemma CompletedPacket(taken: Bytes, d: Decoded, buflen: nat)
    requires taken != [] && d == DecodeLength(taken[1..], 4) && d.status.Complete?
    requires |taken| - 1 - d.used == d.value && 1 + |EncodeLength(d.value)| + d.value <= buflen
    ensures ReadPacket(taken, buflen)
      == Packet(TypeOf(taken[0]), [taken[0]] + EncodeLength(d.value) + taken[1 + d.used..], |taken|)
  {
    assert taken[1 + d.used..1 + d.used + d.value] == taken[1 + d.used..];
  }

  // What a stage or a whole call owes, having started midway through a packet with taken read:
  // n are the bytes it read; it is midway again unless it gave up or delivered the packet, and
  // a packet it delivers is the one the blocking reader makes of the same bytes.
  predicate Owes(t: Trp, o: Outcome, buflen: nat, taken: Bytes, n: Bytes)
    requires 1 <= |o.buf| && buflen <= |o.buf|
  {
    && Consumed(t, n, o.t)
    && (o.Next? || o.t.state != 0 ==> Midway(o.t, o.buf, buflen, taken + n))
    && (o.Return? && o.t.state != 0 ==> o.rc == 0)
    && (o.Return? && o.rc > 0 ==>
      && o.t.len <= |o.buf|
      && Delivered(taken + n, o.rc, o.buf[..o.t.len], buflen))
  }

  lemma HeaderAgrees(t: Trp, buf: Bytes, buflen: nat) returns (n: Bytes)
    requires 1 <= |buf| && buflen <= |buf| && t.state == 0
    ensures Owes(t, HeaderStage(t, buf), buflen, [], n)
  {
    n := Fetch(t, 1).bytes;
    if Fetch(t, 1).rc <= 0 {
      n := [];
    }
    assert [] + n == n && t.data == n + Fetch(t, 1).t.data;
  }

  lemma LengthAgrees(t: Trp, buf: Bytes, buflen: nat, taken: Bytes) returns (n: Bytes)
    requires 1 <= |buf| && buflen <= |buf| && t.state == 1 && Safe(t, |buf|) && FieldRoom(t, |buf|)
    requires Midway(t, buf, buflen, taken)
    ensures Owes(t, LengthStage(t, buf, buflen), buflen, taken, n)
  {
    hide LengthLoop, DecodeLength, EncodeLength, Overwrite, LengthSafe, Partial;
    var x := taken[1..];
    var t0 := if t.len == 0 then t.(multiplier := 1, remLen := 0) else t;
    FieldStart(t, t0, x);
    n := LengthLoopAgrees(t0, x);
    var (t1, rc) := LengthLoop(t0);
    TailGrows(taken, n, 1);
    assert (taken + n)[0] == taken[0];
    LoopSafe(t0);
    if rc > 0 {
      FieldStored(t1, buf, taken + n);
    }
  }

  lemma LoopSafe(t: Trp)
    requires LengthSafe(t)
    ensures var (t', rc) := LengthLoop(t);
      && t'.state == t.state
      && (rc == -1 || (rc >= 0 && LengthSafe(t') && t'.len > 0))
  {}

  lemma FieldStart(t: Trp, t0: Trp, x: Bytes)
    requires t0 == if t.len == 0 then t.(multiplier := 1, remLen := 0) else t
    requires if t.len == 0 then x == [] else LengthSafe(t) && Partial(t, x)
    ensures LengthSafe(t0) && Partial(t0, x)
  {}

  lemma FieldStored(t: Trp, buf: Bytes, taken: Bytes)
    requires 1 + |EncodeLength(t.remLen)| <= |buf| && taken != [] && buf[0] == taken[0] && LengthSafe(t)
    requires DecodeLength(taken[1..], 4) == Decoded(Complete, t.remLen, |taken| - 1)
    ensures var field := EncodeLength(t.remLen);
      Overwrite(buf, 1, field)[..1 + |field|] == [taken[0]] + field + taken[|taken|..]
  {
    LengthFits(t);
    hide EncodeLength, DecodeLength;
    var field := EncodeLength(t.remLen);
    assert Overwrite(buf, 1, field)[..1 + |field|] == [buf[0]] + field;
    assert [taken[0]] + field + taken[|taken|..] == [taken[0]] + field;
  }

  lemma BodyAgrees(t: Trp, buf: Bytes, buflen: nat, taken: Bytes) returns (n: Bytes)
    requires 1 <= |buf| && buflen <= |buf| && t.state == 2 && Safe(t, |buf|)
    requires Midway(t, buf, buflen, taken)
    ensures Owes(t, BodyStage(t, buf), buflen, taken, n)
  {
    var f := Fetch(t, t.remLen);
    if f.rc <= 0 {
      n := [];
      assert taken + [] == taken && t.data == [] + t.data;
    } else {
      n := f.bytes;
      var d := DecodeLength(taken[1..], 4);
      BodyGrows(t, buf, buflen, taken, n, d);
      if t.remLen == f.rc {
        CompletedPacket(taken + n, d, buflen);
        assert d.value > 0;
      }
      hide DecodeLength, EncodeLength, Fetch, ReadPacket, Overwrite;
    }
  }

  lemma OverwriteExtends(s: Bytes, at: nat, w: Bytes)
    requires 0 < at && at + |w| <= |s|
    ensures Overwrite(s, at, w)[..at + |w|] == s[..at] + w && Overwrite(s, at, w)[0] == s[0]
  {}

  lemma BodyGrows(t: Trp, buf: Bytes, buflen: nat, taken: Bytes, n: Bytes, d: Decoded)
    requires 1 <= |buf| && buflen <= |buf| && t.state == 2 && Safe(t, |buf|)
    requires Midway(t, buf, buflen, taken) && |n| <= t.remLen && d == DecodeLength(taken[1..], 4)
    ensures DecodeLength((taken + n)[1..], 4) == d && (taken + n)[0] == taken[0]
    ensures var buf1 := Overwrite(buf, t.len, n);
      && buf1[0] == taken[0]
      && buf1[..t.len + |n|] == [taken[0]] + EncodeLength(d.value) + (taken + n)[1 + d.used..]
  {
    DecodeExtend(taken[1..], n, 4);
    assert (taken + n)[1..] == taken[1..] + n;
    var head := [taken[0]] + EncodeLength(d.value);
    assert buf[..t.len] == head + taken[1 + d.used..];
    OverwriteExtends(buf, t.len, n);
    hide DecodeLength, EncodeLength, Overwrite, Midway, Safe;
    TailGrows(taken, n, 1 + d.used);
    Associate(head, taken[1 + d.used..], n);
    assert buf[..t.len][0] == taken[0];
  }

  lemma TailGrows(a: Bytes, b: Bytes, k: nat)
    requires k <= |a|
    ensures (a + b)[k..] == a[k..] + b
  {}

  lemma Associate(a: Bytes, b: Bytes, c: Bytes)
    ensures a + b + c == a + (b + c)
  {}

  lemma Chain(t: Trp, o: Outcome, o': Outcome, buflen: nat, taken: Bytes, n: Bytes, n': Bytes)
    requires 1 <= |o.buf| == |o'.buf| && buflen <= |o.buf|
    requires Owes(t, o, buflen, taken, n) && o.Next? && Owes(o.t, o', buflen, taken + n, n')
    ensures Owes(t, o', buflen, taken, n + n')
  {
    hide Midway, Delivered;
    assert taken + (n + n') == taken + n + n';
    assert t.data == n + n' + o'.t.data;
  }

  lemma AfterLength(t: Trp, buf: Bytes, buflen: nat, taken: Bytes) returns (n: Bytes)
    requires 1 <= |buf| && buflen <= |buf| && t.state == 1 && Safe(t, |buf|) && Midway(t, buf, buflen, taken)
    requires FieldRoom(t, |buf|)
    ensures Owes(t, ReadNb(t, buf, buflen), buflen, taken, n)
  {
    var o := LengthStage(t, buf, buflen);
    n := LengthAgrees(t, buf, buflen, taken);
    hide LengthStage, BodyStage, Midway, Safe, Delivered;
    if o.Next? {
      assert Safe(o.t, |o.buf|) && o.t.state == 2 && Midway(o.t, o.buf, buflen, taken + n);
      var n' := BodyAgrees(o.t, o.buf, buflen, taken + n);
      Chain(t, o, BodyStage(o.t, o.buf), buflen, taken, n, n');
      n := n + n';
    }
  }

  // One call of MQTTPacket_readnb
  lemma CallAgrees(t: Trp, buf: Bytes, buflen: nat, taken: Bytes) returns (n: Bytes)
    requires buflen <= |buf| && Safe(t, |buf|) && Room(t, |buf|) && Midway(t, buf, buflen, taken)
    ensures Owes(t, ReadNb(t, buf, buflen), buflen, taken, n)
  {
    if t.state == 2 {
      n := BodyAgrees(t, buf, buflen, taken);
    } else if t.state == 1 {
      n := AfterLength(t, buf, buflen, taken);
    } else {
      n := AfterHeader(t, buf, buflen);
    }
  }

  lemma AfterHeader(t: Trp, buf: Bytes, buflen: nat) returns (n: Bytes)
    requires buflen <= |buf| && t.state == 0 && Safe(t, |buf|) && Room(t, |buf|)
    ensures Owes(t, ReadNb(t, buf, buflen), buflen, [], n)
  {
    var o := HeaderStage(t, buf);
    assert t.(state := 0) == t;
    n := HeaderAgrees(t, buf, buflen);
    assert [] + n == n;
    assert o.Next? ==> o.t.state == 1 && Safe(o.t, |o.buf|);
    assert ReadNb(t, buf, buflen) == if o.Next? then ReadNb(o.t, o.buf, buflen) else o;
    hide HeaderStage, LengthStage, BodyStage, Midway, Safe, Delivered, ReadNb;
    if o.Next? {
      assert Midway(o.t, o.buf, buflen, n);
      var n' := AfterLength(o.t, o.buf, buflen, n);
      Chain(t, o, ReadNb(o.t, o.buf, buflen), buflen, [], n, n');
      n := n + n';
    }
  }

  // ---- Runs of calls ----

  // Wherever in the stream the reader starts a packet, header and length field fit n bytes.
  predicate Roomy(stream: Bytes, n: nat) {
    1 <= n && forall i :: 0 <= i < |stream| ==> HeadFits(stream[i..], n)
  }

  // Five bytes are always enough.
  lemma RoomyFive(stream: Bytes, n: nat)
    requires n >= 5
    ensures Roomy(stream, n)
  {
    forall i | 0 <= i < |stream| ensures HeadFits(stream[i..], n) {
      FieldFits(stream[i..][1..]);
    }
  }

  // The field that a call completes is that of the stream.
  lemma FieldHasRoom(t: Trp, x: Bytes, head: Byte, n: nat)
    requires if t.len == 0 then x == [] else LengthSafe(t) && Partial(t, x)
    requires HeadFits([head] + x + t.data, n)
    ensures FieldRoom(t, n)
  {
    hide LengthLoop, DecodeLength, EncodeLength, LengthSafe, Partial;
    var t0 := if t.len == 0 then t.(multiplier := 1, remLen := 0) else t;
    FieldStart(t, t0, x);
    var read := LengthLoopAgrees(t0, x);
    var (t1, rc) := LengthLoop(t0);
    if rc > 0 {
      DecodeExtend(x + read, t1.data, 4);
      Associate(x, read, t1.data);
      Behead(head, x, t.data);
    }
  }

  lemma Behead(a: Byte, b: Bytes, c: Bytes)
    ensures [a] + b + c != [] && ([a] + b + c)[1..] == b + c
  {}

  // So no call of a session runs out of room.
  lemma SessionRoom(t: Trp, buf: Bytes, buflen: nat, past: Bytes, taken: Bytes, stream: Bytes)
    requires 1 <= |buf| && buflen <= |buf| && Safe(t, |buf|) && Midway(t, buf, buflen, taken)
    requires Roomy(stream, |buf|) && stream == past + taken + t.data
    ensures Room(t, |buf|)
  {
    hide LengthLoop, DecodeNb, DecodeLength, EncodeLength, LengthSafe, Partial, FieldRoom, HeadFits;
    if t.state == 1 {
      assert stream[|past|..] == [taken[0]] + taken[1..] + t.data;
      FieldHasRoom(t, taken[1..], taken[0], |buf|);
    } else if t.state == 0 {
      var f := Fetch(t.(state := 0), 1);
      if f.rc > 0 {
        assert t.data == f.bytes + f.t.data && |f.bytes| == 1;
        assert stream[|past|..] == [f.bytes[0]] + [] + f.t.data;
        FieldHasRoom(f.t.(len := 0, state := 1), [], f.bytes[0], |buf|);
      }
    }
  }

  // The caller's view: the transport, the buffer, the bytes of packets that are over, and the
  // bytes of the packet in progress
  datatype Session = Session(t: Trp, buf: Bytes, past: Bytes, taken: Bytes)

  ghost predicate Sound(s: Session, buflen: nat, stream: Bytes) {
    && Roomy(stream, |s.buf|) && buflen <= |s.buf|
    && Safe(s.t, |s.buf|) && Room(s.t, |s.buf|)
    && Midway(s.t, s.buf, buflen, s.taken)
    && stream == s.past + s.taken + s.t.data
  }

  // One call, with what it returned and the bytes of the packet read when it did
  function Call(s: Session, buflen: nat): (Session, int, Bytes)
    requires buflen <= |s.buf| && Safe(s.t, |s.buf|) && Room(s.t, |s.buf|)
  {
    var o := ReadNb(s.t, s.buf, buflen);
    var k := |s.t.data| - |o.t.data|;
    var taken := s.taken + if 0 <= k then s.t.data[..k] else [];
    if o.t.state == 0 then (Session(o.t, o.buf, s.past + taken, []), o.rc, taken)
    else (Session(o.t, o.buf, s.past, taken), o.rc, taken)
  }

  lemma CallSound(s: Session, buflen: nat, stream: Bytes)
    requires Sound(s, buflen, stream)
    ensures var (s', rc, p) := Call(s, buflen);
      && Sound(s', buflen, stream)
      && (rc > 0 ==>
        && s'.past == s.past + p
        && s'.t.len <= |s'.buf|
        && Delivered(p, rc, s'.buf[..s'.t.len], buflen))
  {
    var n := CallAgrees(s.t, s.buf, buflen, s.taken);
    var o := ReadNb(s.t, s.buf, buflen);
    assert s.t.data[..|s.t.data| - |o.t.data|] == n;
    assert Safe(o.t, |o.buf|) && |o.buf| == |s.buf|;
    assert o.t.state == 0 ==> Midway(o.t, o.buf, buflen, []);
    hide ReadNb, Delivered, Midway, Safe, Room, Roomy;
    Regroup(s.past, s.taken, n, o.t.data);
    var (s', rc, p) := Call(s, buflen);
    SessionRoom(s'.t, s'.buf, buflen, s'.past, s'.taken, stream);
  }

  lemma Regroup(a: Bytes, b: Bytes, c: Bytes, d: Bytes)
    ensures a + b + (c + d) == a + (b + c) + d == (a + (b + c)) + [] + d
  {}

  // The session after k calls, whatever they returned
  function Calls(s: Session, buflen: nat, k: nat, ghost stream: Bytes): (s': Session)
    requires Sound(s, buflen, stream)
    ensures Sound(s', buflen, stream)
    decreases k
  {
    if k == 0 then s else
    var s1 := Calls(s, buflen, k - 1, stream);
    CallSound(s1, buflen, stream);
    Call(s1, buflen).0
  }

  // More bytes behind a packet make no difference to the blocking reader.
  lemma DeliveredPrefix(p: Bytes, msgType: int, bytes: Bytes, buflen: nat, rest: Bytes)
    requires Delivered(p, msgType, bytes, buflen)
    ensures ReadPacket(p + rest, buflen) == Packet(msgType, bytes, |p|)
  {
    assert (p + rest)[1..] == p[1..] + rest;
    DecodeExtend(p[1..], rest, 4);
    var d := DecodeLength(p[1..], 4);
    assert (p + rest)[1 + d.used..|p|] == p[1 + d.used..|p|];
  }

  ghost predicate AgreesWithBlocking(s: Session, buflen: nat, stream: Bytes)
    requires Sound(s, buflen, stream)
  {
    var (s', rc, p) := Call(s, buflen);
    rc > 0 ==>
      && s'.t.len <= |s'.buf|
      && |s.past| <= |stream|
      && ReadPacket(stream[|s.past|..], buflen) == Packet(rc, s'.buf[..s'.t.len], |p|)
  }

  lemma DropPast(a: Bytes, b: Bytes, c: Bytes, d: Bytes)
    ensures (a + b + c + d)[|a|..] == b + (c + d) && |a| <= |a + b + c + d|
  {}

  lemma CallDelivers(s: Session, buflen: nat, stream: Bytes)
    requires Sound(s, buflen, stream)
    ensures AgreesWithBlocking(s, buflen, stream)
  {
    var (s', rc, p) := Call(s, buflen);
    CallSound(s, buflen, stream);
    assert stream == s'.past + s'.taken + s'.t.data;
    if rc > 0 {
      hide Call, Midway, Safe, Delivered, ReadPacket, Sound;
      DropPast(s.past, p, s'.taken, s'.t.data);
      DeliveredPrefix(p, rc, s'.buf[..s'.t.len], buflen, s'.taken + s'.t.data);
    }
  }

  // A transport on which nothing has been read yet
  function Opened(stream: Bytes, script: seq<Reply>, buf: Bytes): Session {
    Session(Trp(0, 0, 0, 0, script, stream), buf, [], [])
  }

  lemma OpenedSound(stream: Bytes, script: seq<Reply>, buf: Bytes, buflen: nat)
    requires Roomy(stream, |buf|) && buflen <= |buf|
    ensures Sound(Opened(stream, script, buf), buflen, stream)
  {
    assert [] + [] + stream == stream;
    SessionRoom(Opened(stream, script, buf).t, buf, buflen, [], [], stream);
  }

  // Whatever the network did and however many calls it took: a packet type returned by the
  // resumable reader, and the packet it leaves in the buffer, are what the blocking reader
  // makes of the stream from the point where that packet began.
  lemma NonblockingAgrees(stream: Bytes, script: seq<Reply>, buf: Bytes, buflen: nat, k: nat)
    requires Roomy(stream, |buf|) && buflen <= |buf|
    ensures Sound(Opened(stream, script, buf), buflen, stream)
    ensures AgreesWithBlocking(Calls(Opened(stream, script, buf), buflen, k, stream), buflen, stream)
  {
    OpenedSound(stream, script, buf, buflen);
    CallDelivers(Calls(Opened(stream, script, buf), buflen, k, stream), buflen, stream);
  }

  predicate ErrorFree(script: seq<Reply>) {
    forall i :: 0 <= i < |script| ==> !script[i].Error?
  }

  // A reader that has come to an empty body: the header and the length field are stored, and
  // nothing remains.
  predicate AtEmptyBody(t: Trp) {
    t.state == 2 && t.remLen == 0 && ErrorFree(t.script)
  }

  lemma EmptyFetch(t: Trp)
    requires AtEmptyBody(t)
    ensures Fetch(t, 0).rc == 0 && AtEmptyBody(Fetch(t, 0).t)
  {}

  // A packet whose body is empty is never delivered: getfn, asked for no bytes, gives none,
  // which the reader takes as "call again", for any number of calls, unless the network fails.
  lemma {:induction false} EmptyBodyNeverDelivered(s: Session, buflen: nat, stream: Bytes, k: nat)
    requires Sound(s, buflen, stream) && AtEmptyBody(s.t)
    ensures var s' := Calls(s, buflen, k, stream);
      AtEmptyBody(s'.t) && s'.taken == s.taken && s'.past == s.past && Call(s', buflen).1 == 0
    decreases k
  {
    hide Call, ReadNb, Midway, Safe, AtEmptyBody;
    if k > 0 {
      EmptyBodyNeverDelivered(s, buflen, stream, k - 1);
      OneEmptyCall(Calls(s, buflen, k - 1, stream), buflen, stream);
    }
    OneEmptyCall(Calls(s, buflen, k, stream), buflen, stream);
  }

  lemma OneEmptyCall(s: Session, buflen: nat, stream: Bytes)
    requires Sound(s, buflen, stream) && AtEmptyBody(s.t)
    ensures var (s', rc, _) := Call(s, buflen);
      AtEmptyBody(s'.t) && s'.taken == s.taken && s'.past == s.past && rc == 0
  {
    hide LengthStage, HeaderStage, Midway, DecodeLength, EncodeLength, LengthSafe;
    EmptyFetch(s.t);
    assert s.taken + [] == s.taken;
  }

  // Stalls count as length bytes: after four attempts the field is given up, however short it
  // is and whatever the network would give next.
  lemma StallsExhaustLength(t: Trp, buf: Bytes, buflen: nat)
    requires buflen <= |buf| && t.state == 1 && Safe(t, |buf|) && t.len > 0 && Room(t, |buf|)
    ensures t.len == 4 ==> ReadNb(t, buf, buflen).rc == -1
    ensures t.len < 4 && t.script != [] && t.script[0].Again? ==>
      ReadNb(t, buf, buflen) == Return(t.(len := t.len + 1, script := t.script[1..]), buf, 0)
  {}
}
