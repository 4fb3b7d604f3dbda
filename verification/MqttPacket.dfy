/**
  The primitives of src/libmqtt/MQTTPacket.c: the remaining-length field of section 2.2.3 of
  MQTT 3.1.1, the packet length predictor, and the writers of integers and strings.
*/
module MqttPacket {
  import opened Common

  const BUFFER_TOO_SHORT := -2

  // 128^4: the field has at most four bytes
  const LENGTH_LIMIT := 0x1000_0000

  const CONNECT := 1
  const CONNACK := 2
  const PUBLISH := 3
  const PUBACK := 4
  const PUBREC := 5
  const PUBREL := 6
  const PUBCOMP := 7
  const SUBSCRIBE := 8
  const SUBACK := 9
  const PINGREQ := 12
  const PINGRESP := 13

  // ---- The remaining-length field ----

  function EncodeLength(n: nat): (s: Bytes)
    ensures s != []
  {
    if n < 128 then [n] else [128 + n % 128] + EncodeLength(n / 128)
  }

  // How MQTTPacket_decode ends: at a byte without the continuation bit, at the limit of four
  // bytes, or because no more bytes could be read
  datatype Status = Complete | TooLong | Starved

  // used: the number of bytes read
  datatype Decoded = Decoded(status: Status, value: nat, used: nat) {
    // The C code counts the attempt that failed.
    function ReturnCode(): nat {
      if status.Complete? then used else used + 1
    }
  }

  // Reads at most budget bytes of s.
  function DecodeLength(s: Bytes, budget: nat): (d: Decoded)
    ensures d.used <= |s| && d.used <= budget
  {
    if budget == 0 then Decoded(TooLong, 0, 0)
    else if s == [] then Decoded(Starved, 0, 0)
    else if s[0] < 128 then Decoded(Complete, s[0], 1)
    else
      var d := DecodeLength(s[1..], budget - 1);
      Decoded(d.status, s[0] - 128 + 128 * d.value, 1 + d.used)
  }

  function Power128(k: nat): (p: nat)
    ensures p > 0
  {
    if k == 0 then 1 else 128 * Power128(k - 1)
  }

  // Decoding undoes encoding and reads exactly the encoded bytes, whatever follows them.
  lemma {:induction false} DecodeEncoded(n: nat, suffix: Bytes, budget: nat)
    requires 0 < budget && n < Power128(budget)
    ensures DecodeLength(EncodeLength(n) + suffix, budget) == Decoded(Complete, n, |EncodeLength(n)|)
  {
    if n >= 128 {
      assert budget > 1;
      assert n / 128 < Power128(budget - 1);
      DecodeEncoded(n / 128, suffix, budget - 1);
      assert (EncodeLength(n) + suffix)[1..] == EncodeLength(n / 128) + suffix;
    }
  }

  lemma LengthRoundTrip(n: nat, suffix: Bytes)
    requires n < LENGTH_LIMIT
    ensures DecodeLength(EncodeLength(n) + suffix, 4) == Decoded(Complete, n, |EncodeLength(n)|)
    ensures |EncodeLength(n)| <= 4
  {
    assert Power128(4) == LENGTH_LIMIT;
    DecodeEncoded(n, suffix, 4);
  }

  // No byte string that decodes to n is shorter than the encoding of n.
  lemma {:induction false} EncodeIsShortest(s: Bytes, budget: nat)
    requires DecodeLength(s, budget).status.Complete?
    ensures |EncodeLength(DecodeLength(s, budget).value)| <= DecodeLength(s, budget).used
  {
    if s[0] >= 128 {
      EncodeIsShortest(s[1..], budget - 1);
      var d := DecodeLength(s[1..], budget - 1);
      var n := s[0] - 128 + 128 * d.value;
      assert n >= 128 ==> n / 128 == d.value;
    }
  }

  // Encoding what was decoded gives the same bytes back exactly when the field did not end in
  // a superfluous zero byte.
  lemma {:induction false} ReencodeDecoded(s: Bytes, budget: nat)
    requires DecodeLength(s, budget).status.Complete?
    ensures var d := DecodeLength(s, budget);
      EncodeLength(d.value) == s[..d.used] <==> (d.used == 1 || s[d.used - 1] != 0)
  {
    if s[0] >= 128 {
      var d := DecodeLength(s[1..], budget - 1);
      var n := s[0] - 128 + 128 * d.value;
      ReencodeDecoded(s[1..], budget - 1);
      assert s[..1 + d.used] == [s[0]] + s[1..][..d.used];
      if d.value == 0 {
        assert EncodeLength(n) == [n];
        assert EncodeLength(0) == [0];
        ZeroField(s[1..], budget - 1);
      } else {
        assert n / 128 == d.value && n % 128 == s[0] - 128;
        NonzeroField(s[1..], budget - 1);
        assert EncodeLength(n) == [s[0]] + EncodeLength(d.value);
        assert EncodeLength(n)[1..] == EncodeLength(d.value);
        assert s[..1 + d.used][1..] == s[1..][..d.used];
      }
    }
  }

  lemma {:induction false} ZeroField(s: Bytes, budget: nat)
    requires DecodeLength(s, budget).status.Complete? && DecodeLength(s, budget).value == 0
    ensures s[DecodeLength(s, budget).used - 1] == 0
  {
    if s[0] >= 128 {
      ZeroField(s[1..], budget - 1);
    }
  }

  lemma NonzeroField(s: Bytes, budget: nat)
    requires DecodeLength(s, budget).status.Complete? && DecodeLength(s, budget).value != 0
    ensures DecodeLength(s, budget).used == 1 ==> s[0] != 0
  {}

  lemma {:induction false} UsedSome(s: Bytes, budget: nat)
    requires 0 < budget && !DecodeLength(s, budget).status.Starved?
    ensures s != [] && DecodeLength(s, budget).used >= 1
    ensures s[0] >= 128 ==> DecodeLength(s, budget).ReturnCode() >= 2
  {}

  // MQTTPacket_encode, writing at index at of the buffer
  method Encode(buf: array<Byte>, at: nat, length: nat) returns (rc: nat)
    requires at + |EncodeLength(length)| <= buf.Length
    modifies buf
    ensures rc == |EncodeLength(length)|
    ensures buf[..] == Overwrite(old(buf[..]), at, EncodeLength(length))
  {
    rc := 0;
    var n := length;
    var more := true;
    ghost var done, rest: Bytes := [], EncodeLength(length);
    assert buf[..] == Overwrite(buf[..], at, done);
    hide Overwrite, EncodeLength;
    while more
      invariant EncodeLength(length) == done + rest && rc == |done|
      invariant more ==> rest == EncodeLength(n)
      invariant !more ==> rest == []
      invariant buf[..] == Overwrite(old(buf[..]), at, done)
      decreases more, n
    {
      var d: Byte := n % 128;
      ghost var n' := n;
      ghost var rest' := if n >= 128 then EncodeLength(n / 128) else [];
      more := n >= 128;
      n := n / 128;
      if more {
        d := d + 128;
      }
      EncodeUnfold(n');
      AppendByte(EncodeLength(length), done, d, rest');
      AppendChar(buf, at, rc, d, old(buf[..]), done);
      done, rest := done + [d], rest';
      rc := rc + 1;
    }
  }

  // One more byte behind those already written from index at on
  method AppendChar(buf: array<Byte>, at: nat, rc: nat, d: Byte, ghost was: Bytes, ghost done: Bytes)
    requires |was| == buf.Length && rc == |done| && at + rc < buf.Length
    requires buf[..] == Overwrite(was, at, done)
    modifies buf
    ensures buf[..] == Overwrite(was, at, done + [d])
  {
    buf[at + rc] := d;
  }

  lemma EncodeUnfold(n: nat)
    ensures EncodeLength(n) == if n < 128 then [n % 128] + [] else [128 + n % 128] + EncodeLength(n / 128)
  {}

  lemma AppendByte(s: Bytes, done: Bytes, d: Byte, rest: Bytes)
    requires s == done + ([d] + rest)
    ensures s == (done + [d]) + rest && |done| < |s|
  {}

  // What a field is worth behind len bytes that gave value and multiplier
  function Behind(d: Decoded, value: nat, multiplier: nat, len: nat): Decoded {
    Decoded(d.status, value + Product(multiplier, d.value), len + d.used)
  }

  // a * b, as a sum so that the solver is not drawn into non-linear arithmetic
  function Product(a: nat, b: nat): nat {
    if b == 0 then 0 else a + Product(a, b - 1)
  }

  lemma {:induction false} ProductIsTimes(a: nat, b: nat)
    ensures Product(a, b) == a * b
  {
    if b > 0 {
      ProductIsTimes(a, b - 1);
    }
  }

  lemma {:induction false} ScaleProduct(k: nat, a: nat, b: nat)
    ensures Product(k * a, b) == k * Product(a, b)
  {
    if b > 0 {
      ScaleProduct(k, a, b - 1);
    }
  }

  lemma {:induction false} ProductOfSum(a: nat, b: nat, c: nat)
    ensures Product(a, b + c) == Product(a, b) + Product(a, c)
  {
    if c > 0 {
      ProductOfSum(a, b, c - 1);
    }
  }

  lemma {:induction false} ProductSwap(a: nat, k: nat, b: nat)
    ensures Product(a, k * b) == Product(k * a, b)
  {
    ProductIsTimes(a, k * b);
    ProductIsTimes(k * a, b);
  }

  lemma BehindByte(c: Byte, d: Decoded, value: nat, multiplier: nat, len: nat)
    requires c >= 128
    ensures Behind(Decoded(d.status, c - 128 + 128 * d.value, 1 + d.used), value, multiplier, len)
      == Behind(d, value + Product(multiplier, c - 128), 128 * multiplier, len + 1)
  {
    ProductOfSum(multiplier, c - 128, 128 * d.value);
    ProductSwap(multiplier, 128, d.value);
  }

  // What a getcharfn or getfn callback reads from: it hands out up to n bytes in order.
  class Source {
    var data: Bytes

    constructor (data: Bytes)
      ensures this.data == data
    {
      this.data := data;
    }

    method Get(n: nat) returns (s: Bytes)
      modifies this
      ensures var k := if n <= |old(data)| then n else |old(data)|;
        s == old(data)[..k] && data == old(data)[k..]
    {
      var k := if n <= |data| then n else |data|;
      s := data[..k];
      data := data[k..];
    }
  }

  // MQTTPacket_decode
  method Decode(src: Source) returns (d: Decoded)
    modifies src
    ensures d == DecodeLength(old(src.data), 4)
    ensures src.data == old(src.data)[d.used..]
  {
    var value: nat, multiplier: nat, len := 0, 1, 0;
    ProductIsTimes(1, DecodeLength(src.data, 4).value);
    while true
      invariant len <= 4 && len <= |old(src.data)| && src.data == old(src.data)[len..]
      invariant DecodeLength(old(src.data), 4) == Behind(DecodeLength(src.data, 4 - len), value, multiplier, len)
      decreases 4 - len
    {
      if len == 4 {
        return Decoded(TooLong, value, len);
      }
      ghost var rest := src.data;
      var c := src.Get(1);
      if |c| != 1 {
        return Decoded(Starved, value, len);
      }
      assert c[0] == rest[0];
      if c[0] < 128 {
        return Decoded(Complete, value + Product(multiplier, c[0]), len + 1);
      }
      BehindByte(c[0], DecodeLength(rest[1..], 4 - len - 1), value, multiplier, len);
      value := value + Product(multiplier, c[0] - 128);
      multiplier := 128 * multiplier;
      len := len + 1;
    }
  }

  // MQTTPacket_decodeBuf, reading from index at. A field that runs off the end of the buffer
  // is Starved: the C code reads beyond it.
  method DecodeBuf(buf: Bytes, at: nat) returns (d: Decoded)
    requires at <= |buf|
    ensures d == DecodeLength(buf[at..], 4)
  {
    var bufptr := new Source(buf[at..]);
    d := Decode(bufptr);
  }

  // ---- The length predictor ----

  // MQTTPacket_len
  function PacketLen(remLen: nat): nat {
    var n := remLen + 1;
    if n < 128 then n + 1
    else if n < 16384 then n + 2
    else if n < 2097151 then n + 3
    else n + 4
  }

  // The bytes of a packet with this remaining length
  function PacketSize(remLen: nat): nat {
    1 + |EncodeLength(remLen)| + remLen
  }

  lemma EncodedSize(n: nat)
    ensures |EncodeLength(n)| ==
      if n < 128 then 1 else if n < 16384 then 2 else if n < 2097152 then 3
      else if n < LENGTH_LIMIT then 4 else 1 + |EncodeLength(n / 128)|
    ensures n >= LENGTH_LIMIT ==> |EncodeLength(n)| >= 5
  {}

  // The predictor is exact but for four lengths, where it is one too large, up to the largest
  // length the protocol has; from there on it is too small.
  lemma PredictorExact(remLen: nat)
    ensures PacketLen(remLen) >= PacketSize(remLen) <==> remLen < LENGTH_LIMIT
    ensures remLen < LENGTH_LIMIT ==>
      && PacketLen(remLen) == PacketSize(remLen) + if remLen in {127, 16383, 2097150, 2097151} then 1 else 0
  {
    EncodedSize(remLen);
  }

  // ---- Writing into a buffer ----

  // s with the bytes from index at replaced by w
  function Overwrite(s: Bytes, at: nat, w: Bytes): (r: Bytes)
    requires at + |w| <= |s|
    ensures |r| == |s|
  {
    s[..at] + w + s[at + |w|..]
  }

  lemma OverwriteTwice(s: Bytes, at: nat, v: Bytes, w: Bytes)
    requires at + |v| + |w| <= |s|
    ensures Overwrite(Overwrite(s, at, v), at + |v|, w) == Overwrite(s, at, v + w)
  {}

  lemma OverwriteStart(s: Bytes, w: Bytes)
    requires |w| <= |s|
    ensures w <= Overwrite(s, 0, w)
  {}

  // writeInt: the two low bytes, high one first
  function Int16(n: nat): (s: Bytes)
    ensures |s| == 2
  {
    var high := n / 256;
    [high % 256, n % 256]
  }

  // readInt
  function ReadInt(s: Bytes, at: nat): nat
    requires at + 2 <= |s|
  {
    256 * (s[at] as int) + s[at + 1] as int
  }

  lemma IntRoundTrip(n: nat, prefix: Bytes, suffix: Bytes)
    ensures ReadInt(prefix + Int16(n) + suffix, |prefix|) == n <==> n < 0x1_0000
  {}

  // A string with its length in front. The length is taken modulo 65536.
  function Prefixed(s: Bytes): (r: Bytes)
    ensures |r| == 2 + |s|
  {
    Int16(|s|) + s
  }

  // MQTTString: a C string, a string with an explicit length, or both, or neither
  datatype MqttString = MqttString(cstring: Option<Bytes>, lenstring: Option<Bytes>) {
    // The test by which the serializer takes an optional field to be there
    predicate Present() {
      cstring.Some? || lenstring.Some?
    }

    // What writeMQTTString writes: the explicit string unless it is empty
    function Written(): Bytes {
      if lenstring.Some? && lenstring.value != [] then lenstring.value
      else if cstring.Some? then cstring.value
      else []
    }

    // MQTTstrlen: the C string if there is one
    function StrLen(): nat {
      if cstring.Some? then |cstring.value|
      else if lenstring.Some? then |lenstring.value|
      else 0
    }

    // Both representations, where there are two, are of one length.
    predicate Consistent() {
      cstring.Some? && lenstring.Some? && lenstring.value != [] ==> |cstring.value| == |lenstring.value|
    }
  }

  // The predicted length of a string is the written one exactly when its representations agree.
  lemma StrLenAgrees(s: MqttString)
    ensures s.StrLen() == |s.Written()| <==> s.Consistent()
  {}

  // memcpy(ptr, s, |s|)
  method WriteBytes(buf: array<Byte>, p: nat, s: Bytes) returns (p': nat)
    requires p + |s| <= buf.Length
    modifies buf
    ensures p' == p + |s| && buf[..] == Overwrite(old(buf[..]), p, s)
  {
    forall i | 0 <= i < |s| {
      buf[p + i] := s[i];
    }
    p' := p + |s|;
  }

  // A buffer that held was has been filled from its start with done.
  ghost predicate Filled(s: Bytes, was: Bytes, done: Bytes) {
    |done| <= |was| && s == Overwrite(was, 0, done)
  }

  lemma FilledStart(s: Bytes, was: Bytes, done: Bytes)
    requires Filled(s, was, done)
    ensures s == done + was[|done|..]
  {}

  // The writers below append at ptr, behind what has been written already.
  method Put(buf: array<Byte>, ptr: nat, s: Bytes, ghost was: Bytes, ghost done: Bytes) returns (ptr': nat)
    requires Filled(buf[..], was, done) && ptr == |done| && ptr + |s| <= buf.Length
    modifies buf
    ensures ptr' == ptr + |s| && Filled(buf[..], was, done + s)
  {
    ptr' := WriteBytes(buf, ptr, s);
    OverwriteTwice(was, 0, done, s);
  }

  method WriteChar(buf: array<Byte>, ptr: nat, c: Byte, ghost was: Bytes, ghost done: Bytes) returns (ptr': nat)
    requires Filled(buf[..], was, done) && ptr == |done| && ptr + 1 <= buf.Length
    modifies buf
    ensures ptr' == ptr + 1 && Filled(buf[..], was, done + [c])
  {
    ptr' := Put(buf, ptr, [c], was, done);
  }

  method WriteInt(buf: array<Byte>, ptr: nat, n: nat, ghost was: Bytes, ghost done: Bytes) returns (ptr': nat)
    requires Filled(buf[..], was, done) && ptr == |done| && ptr + 2 <= buf.Length
    modifies buf
    ensures ptr' == ptr + 2 && Filled(buf[..], was, done + Int16(n))
  {
    var high := n / 256;
    ptr' := WriteChar(buf, ptr, high % 256, was, done);
    ptr' := WriteChar(buf, ptr', n % 256, was, done + [high % 256]);
    assert done + [high % 256] + [n % 256] == done + Int16(n);
  }

  method WriteLength(buf: array<Byte>, ptr: nat, n: nat, ghost was: Bytes, ghost done: Bytes) returns (ptr': nat)
    requires Filled(buf[..], was, done) && ptr == |done| && ptr + |EncodeLength(n)| <= buf.Length
    modifies buf
    ensures ptr' == ptr + |EncodeLength(n)| && Filled(buf[..], was, done + EncodeLength(n))
  {
    var rc := Encode(buf, ptr, n);
    OverwriteTwice(was, 0, done, EncodeLength(n));
    ptr' := ptr + rc;
  }

  method WriteCString(buf: array<Byte>, ptr: nat, s: Bytes, ghost was: Bytes, ghost done: Bytes) returns (ptr': nat)
    requires Filled(buf[..], was, done) && ptr == |done| && ptr + 2 + |s| <= buf.Length
    modifies buf
    ensures ptr' == ptr + 2 + |s| && Filled(buf[..], was, done + Prefixed(s))
  {
    ptr' := WriteInt(buf, ptr, |s|, was, done);
    ptr' := Put(buf, ptr', s, was, done + Int16(|s|));
    assert done + Int16(|s|) + s == done + Prefixed(s);
  }

  method WriteMqttString(buf: array<Byte>, ptr: nat, s: MqttString, ghost was: Bytes, ghost done: Bytes)
    returns (ptr': nat)
    requires Filled(buf[..], was, done) && ptr == |done| && ptr + 2 + |s.Written()| <= buf.Length
    modifies buf
    ensures ptr' == ptr + 2 + |s.Written()| && Filled(buf[..], was, done + Prefixed(s.Written()))
  {
    if s.lenstring.Some? && |s.lenstring.value| > 0 {
      ptr' := WriteInt(buf, ptr, |s.lenstring.value|, was, done);
      ptr' := Put(buf, ptr', s.lenstring.value, was, done + Int16(|s.lenstring.value|));
      assert done + Int16(|s.lenstring.value|) + s.lenstring.value == done + Prefixed(s.lenstring.value);
    } else if s.cstring.Some? {
      ptr' := WriteCString(buf, ptr, s.cstring.value, was, done);
    } else {
      ptr' := WriteInt(buf, ptr, 0, was, done);
      assert Prefixed([]) == Int16(0);
    }
  }

  // readMQTTLenString: the string at index at of a frame that ends at end, if it is all there
  function ReadString(s: Bytes, at: nat, end: int): (r: Option<Bytes>)
    requires at <= |s| && end <= |s|
    ensures r.Some? ==> at + 2 + |r.value| <= end && r.value == s[at + 2..at + 2 + |r.value|]
  {
    if end - at > 1 && at + 2 + ReadInt(s, at) <= end then Some(s[at + 2..at + 2 + ReadInt(s, at)]) else None
  }

  lemma ReadPrefixed(prefix: Bytes, x: Bytes, suffix: Bytes, end: int)
    requires |x| < 0x1_0000
    requires |prefix| + 2 + |x| <= end <= |prefix + Prefixed(x) + suffix|
    ensures ReadString(prefix + Prefixed(x) + suffix, |prefix|, end) == Some(x)
  {
    var s := prefix + Prefixed(x) + suffix;
    assert s == prefix + Int16(|x|) + (x + suffix);
    IntRoundTrip(|x|, prefix, x + suffix);
    assert s[|prefix| + 2..|prefix| + 2 + |x|] == x;
  }

  // MQTTHeader, with the bit fields cut to their widths
  function Header(msgType: Byte, dup: int, qos: int, retain: int): Byte
    requires msgType < 16
  {
    16 * msgType + 8 * (dup % 2) + 2 * (qos % 4) + retain % 2
  }

  function TypeOf(h: Byte): (t: Byte)
    ensures t < 16
  {
    h / 16
  }

  function DupOf(h: Byte): Byte { h / 8 % 2 }
  function QosOf(h: Byte): Byte { h / 2 % 4 }
  function RetainOf(h: Byte): Byte { h % 2 }

  lemma HeaderFields(t: Byte, dup: int, qos: int, retain: int)
    requires t < 16
    ensures var h := Header(t, dup, qos, retain);
      TypeOf(h) == t && DupOf(h) == dup % 2 && QosOf(h) == qos % 4 && RetainOf(h) == retain % 2
  {
    FieldsOf(t, dup % 2, qos % 4, retain % 2);
  }

  // The layout of the header byte: section 2.2 of MQTT 3.1.1
  lemma HeaderLayout(h: Byte)
    ensures h == 16 * TypeOf(h) + 8 * DupOf(h) + 2 * QosOf(h) + RetainOf(h)
    ensures DupOf(h) < 2 && QosOf(h) < 4 && RetainOf(h) < 2
  {
    var t, d, q := h / 16, h / 8, h / 2;
    assert h == 2 * q + h % 2 && q / 4 == d && d / 2 == t;
  }

  // The example of section 2.2.3 of MQTT 3.1.1, and the two bytes of an integer
  lemma StandardBytes()
    ensures EncodeLength(321) == [0xC1, 0x02] && DecodeLength([0xC1, 0x02], 4) == Decoded(Complete, 321, 2)
    ensures Int16(0x0102) == [0x01, 0x02] && ReadInt([0x01, 0x02], 0) == 0x0102
  {
    assert EncodeLength(2) == [2] && 321 / 128 == 2;
    assert [0xC1, 0x02][1..] == [0x02] && DecodeLength([0x02], 3) == Decoded(Complete, 2, 1);
  }

  lemma FieldsOf(t: int, d: int, q: int, r: int)
    requires 0 <= t < 16 && 0 <= d < 2 && 0 <= q < 4 && 0 <= r < 2
    ensures var h := 16 * t + 8 * d + 2 * q + r;
      h / 16 == t && h / 8 % 2 == d && h / 2 % 4 == q && h % 2 == r
  {
    var h := 16 * t + 8 * d + 2 * q + r;
    assert h / 8 == 2 * t + d && h / 2 == 8 * t + 4 * d + q;
  }

  // MQTTSerialize_zero
  method SerializeZero(buf: array<Byte>, buflen: nat, msgType: Byte) returns (rc: int)
    requires buflen <= buf.Length && msgType < 16
    modifies buf
    ensures buflen < 2 ==> rc == BUFFER_TOO_SHORT && buf[..] == old(buf[..])
    ensures buflen >= 2 ==> rc == 2 && buf[..] == Overwrite(old(buf[..]), 0, [16 * msgType, 0])
  {
    if buflen < 2 {
      return BUFFER_TOO_SHORT;
    }
    ghost var was := buf[..];
    assert EncodeLength(0) == [0] && Header(msgType, 0, 0, 0) == 16 * msgType;
    assert Filled(was, was, []);
    var ptr := WriteChar(buf, 0, Header(msgType, 0, 0, 0), was, []);
    ptr := WriteLength(buf, ptr, 0, was, [16 * msgType]);
    assert [16 * msgType] + [0] == [16 * msgType, 0];
    rc := ptr;
  }
}
