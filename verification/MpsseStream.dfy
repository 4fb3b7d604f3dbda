/**
  The command stream libmpsse sends to an FTDI chip: src/libmpsse/support.c and
  src/libmpsse/mpsse.c as a compiler, and a decoder of the stream written from the chip's side.
*/
module MpsseStream {
  import opened Common

  // ---- Commands and pins ----

  const SET_BITS_LOW: Byte := 0x80
  const SET_BITS_HIGH: Byte := 0x82
  const LOOPBACK_END: Byte := 0x85
  const TCK_DIVISOR: Byte := 0x86
  const SEND_IMMEDIATE: Byte := 0x87
  const TCK_X5: Byte := 0x8A
  const TCK_D5: Byte := 0x8B
  const ENABLE_3_PHASE_CLOCK: Byte := 0x8C
  const DISABLE_ADAPTIVE_CLOCK: Byte := 0x97

  // A clocking command, flag by flag
  datatype Command = Command(write: bool, read: bool, lsb: bool, writeNeg: bool, readNeg: bool, bit: bool)

  function Flag(b: bool): (n: Byte) { if b then 1 else 0 }

  // MPSSE_DO_WRITE, MPSSE_DO_READ, LSB, MPSSE_WRITE_NEG, MPSSE_READ_NEG and MPSSE_BITMODE
  function Code(c: Command): (b: Byte)
    ensures b < 64
  {
    16 * Flag(c.write) + 32 * Flag(c.read) + 8 * Flag(c.lsb) + Flag(c.writeNeg) + 4 * Flag(c.readNeg) + 2 * Flag(c.bit)
  }

  function CommandOf(b: Byte): Command {
    Command(b / 16 % 2 == 1, b / 32 % 2 == 1, b / 8 % 2 == 1, b % 2 == 1, b / 4 % 2 == 1, b / 2 % 2 == 1)
  }

  lemma CodeRoundTrip(c: Command)
    ensures CommandOf(Code(c)) == c
  {
    var b, w, r, l, n, m, t := Code(c), Flag(c.write), Flag(c.read), Flag(c.lsb), Flag(c.writeNeg),
      Flag(c.readNeg), Flag(c.bit);
    assert b / 2 == 8 * w + 16 * r + 4 * l + 2 * m + t;
    assert b / 4 == 4 * w + 8 * r + 2 * l + m;
    assert b / 8 == 2 * w + 4 * r + l;
    assert b / 16 == w + 2 * r;
    assert b / 32 == r;
  }

  // The four low GPIO pins
  datatype Levels = Levels(pin0: bool, pin1: bool, pin2: bool, pin3: bool) {
    function Get(pin: nat): bool
      requires pin < 4
    {
      if pin == 0 then pin0 else if pin == 1 then pin1 else if pin == 2 then pin2 else pin3
    }

    function Set(pin: nat, high: bool): (g: Levels)
      requires pin < 4
      ensures forall other :: 0 <= other < 4 ==> g.Get(other) == if other == pin then high else Get(other)
    {
      if pin == 0 then this.(pin0 := high) else if pin == 1 then this.(pin1 := high)
      else if pin == 2 then this.(pin2 := high) else this.(pin3 := high)
    }
  }

  // The low byte of pins: clock, data out, data in, chip select, and the GPIO pins
  datatype Port = Port(sk: bool, do: bool, di: bool, cs: bool, gpio: Levels)

  function Nibble(g: Levels): (n: Byte)
    ensures n < 16
  {
    Flag(g.pin0) + 2 * Flag(g.pin1) + 4 * Flag(g.pin2) + 8 * Flag(g.pin3)
  }

  function PortByte(p: Port): (b: Byte)
    ensures b / 16 == Nibble(p.gpio)
  {
    Flag(p.sk) + 2 * Flag(p.do) + 4 * Flag(p.di) + 8 * Flag(p.cs) + 16 * Nibble(p.gpio)
  }

  // Bit i of a byte
  function BitAt(b: Byte, i: nat): bool {
    if i == 0 then b % 2 == 1 else BitAt(b / 2, i - 1)
  }

  // Which bit of the byte each pin is
  lemma PortBits(p: Port)
    ensures var b := PortByte(p);
      && BitAt(b, 0) == p.sk && BitAt(b, 1) == p.do && BitAt(b, 2) == p.di && BitAt(b, 3) == p.cs
      && forall k: nat :: k < 4 ==> BitAt(b, 4 + k) == p.gpio.Get(k)
  {
    hide PortByte;
    PortUnfold(p);
    var n := Nibble(p.gpio);
    FourBits(PortByte(p), p.sk, p.do, p.di, p.cs, n);
    FourBits(n, p.gpio.pin0, p.gpio.pin1, p.gpio.pin2, p.gpio.pin3, 0);
    forall k: nat | k < 4 ensures BitAt(PortByte(p), 4 + k) == p.gpio.Get(k) {
      assert BitAt(PortByte(p), 4 + k) == BitAt(n, k);
    }
  }

  lemma PortUnfold(p: Port)
    ensures PortByte(p) == Flag(p.sk) + 2 * Flag(p.do) + 4 * Flag(p.di) + 8 * Flag(p.cs) + 16 * Nibble(p.gpio)
  {}

  lemma FourBits(b: Byte, x: bool, y: bool, z: bool, w: bool, n: Byte)
    requires b == Flag(x) + 2 * Flag(y) + 4 * Flag(z) + 8 * Flag(w) + 16 * n
    ensures BitAt(b, 0) == x && BitAt(b, 1) == y && BitAt(b, 2) == z && BitAt(b, 3) == w
    ensures forall k: nat :: BitAt(b, 4 + k) == BitAt(n, k)
  {
    var b1: Byte := b / 2;
    var b2: Byte := b1 / 2;
    var b3: Byte := b2 / 2;
    assert b1 == Flag(y) + 2 * Flag(z) + 4 * Flag(w) + 8 * n;
    assert b2 == Flag(z) + 2 * Flag(w) + 4 * n;
    assert b3 == Flag(w) + 2 * n && b3 / 2 == n;
    assert BitAt(b, 2) == BitAt(b1, 1) == BitAt(b2, 0);
    assert BitAt(b, 3) == BitAt(b1, 2) == BitAt(b2, 1) == BitAt(b3, 0);
    forall k: nat ensures BitAt(b, 4 + k) == BitAt(n, k) {
      assert BitAt(b, 4 + k) == BitAt(b1, 3 + k) == BitAt(b2, 2 + k) == BitAt(b3, 1 + k);
    }
  }

  // ---- What the chip understands ----

  // Clock stands for so many bits in bit mode and so many bytes otherwise; only a write has
  // data, a single byte in bit mode.
  datatype Op =
    | SetLow(value: Byte, direction: Byte)
    | SetHigh(value: Byte, direction: Byte)
    | Divisor(low: Byte, high: Byte)
    | Single(code: Byte)
    | Clock(cmd: Command, count: nat, data: Bytes)

  predicate SingleCode(b: Byte) {
    b in {LOOPBACK_END, SEND_IMMEDIATE, TCK_X5, TCK_D5, ENABLE_3_PHASE_CLOCK, DISABLE_ADAPTIVE_CLOCK}
  }

  // How many data bytes follow a clocking command
  function DataSize(cmd: Command, count: nat): nat {
    if !cmd.write then 0 else if cmd.bit then 1 else count
  }

  predicate Proper(op: Op) {
    match op
    case Single(code) => SingleCode(code)
    case Clock(cmd, count, data) =>
      && (cmd.write || cmd.read) && 1 <= count <= (if cmd.bit then 8 else 0x1_0000) && |data| == DataSize(cmd, count)
    case _ => true
  }

  // The first operation of a stream, and how many bytes it takes
  function Next(s: Bytes): (r: Option<(Op, nat)>)
    ensures r.Some? ==> 1 <= r.value.1 <= |s|
  {
    if s == [] then None
    else if s[0] in {SET_BITS_LOW, SET_BITS_HIGH, TCK_DIVISOR} then
      if |s| < 3 then None
      else if s[0] == SET_BITS_LOW then Some((SetLow(s[1], s[2]), 3))
      else if s[0] == SET_BITS_HIGH then Some((SetHigh(s[1], s[2]), 3))
      else Some((Divisor(s[1], s[2]), 3))
    else if SingleCode(s[0]) then Some((Single(s[0]), 1))
    else if s[0] >= 64 then None else
    var cmd := CommandOf(s[0]);
    var head := if cmd.bit then 2 else 3;
    if !(cmd.write || cmd.read) || |s| < head || (cmd.bit && s[1] >= 8) then None else
    var low: nat, high: nat := s[1], if cmd.bit then 0 else s[2];
    var count := low + 256 * high + 1;
    if |s| < head + DataSize(cmd, count) then None
    else Some((Clock(cmd, count, s[head..head + DataSize(cmd, count)]), head + DataSize(cmd, count)))
  }

  function Decode(s: Bytes): Option<seq<Op>> {
    if s == [] then Some([]) else
    match Next(s)
    case None => None
    case Some((op, n)) =>
      match Decode(s[n..])
      case None => None
      case Some(ops) => Some([op] + ops)
  }

  // ---- The encoding ----

  function Header(cmd: Command, count: nat): Bytes {
    var rsize := count - 1;
    [Code(cmd)] + if cmd.bit then [rsize % 256] else [rsize % 256, rsize / 256 % 256]
  }

  function Encode(op: Op): (s: Bytes) {
    match op
    case SetLow(value, direction) => [SET_BITS_LOW, value, direction]
    case SetHigh(value, direction) => [SET_BITS_HIGH, value, direction]
    case Divisor(low, high) => [TCK_DIVISOR, low, high]
    case Single(code) => [code]
    case Clock(cmd, count, data) => Header(cmd, count) + data
  }

  function EncodeAll(ops: seq<Op>): Bytes {
    if ops == [] then [] else Encode(ops[0]) + EncodeAll(ops[1..])
  }

  predicate AllProper(ops: seq<Op>) {
    forall i :: 0 <= i < |ops| ==> Proper(ops[i])
  }

  lemma NextEncoded(op: Op, rest: Bytes)
    requires Proper(op)
    ensures Next(Encode(op) + rest) == Some((op, |Encode(op)|))
  {
    if op.Clock? {
      NextClock(op.cmd, op.count, op.data, rest);
    }
  }

  lemma NextClock(cmd: Command, count: nat, data: Bytes, rest: Bytes)
    requires Proper(Clock(cmd, count, data))
    ensures Next(Header(cmd, count) + data + rest) == Some((Clock(cmd, count, data), |Header(cmd, count) + data|))
  {
    hide Code, CommandOf;
    CodeRoundTrip(cmd);
    CodeIsSmall(cmd);
    var head := Header(cmd, count);
    var s := head + data + rest;
    assert s[0] == Code(cmd) && s[1] == (count - 1) % 256;
    assert !cmd.bit ==> s[2] == (count - 1) / 256 % 256;
    assert s[|head|..|head| + |data|] == data;
  }

  lemma CodeIsSmall(cmd: Command)
    ensures Code(cmd) < 64
  {}

  // The decoder recovers every stream of proper operations.
  lemma {:induction false} DecodeEncoded(ops: seq<Op>)
    requires AllProper(ops)
    ensures Decode(EncodeAll(ops)) == Some(ops)
  {
    hide Next, Encode, Proper;
    if ops != [] {
      var first, rest := Encode(ops[0]), EncodeAll(ops[1..]);
      NextEncoded(ops[0], rest);
      DecodeEncoded(ops[1..]);
      assert (first + rest)[|first|..] == rest;
      assert [ops[0]] + ops[1..] == ops;
    }
  }

  lemma {:induction false} EncodeConcat(a: seq<Op>, b: seq<Op>)
    ensures EncodeAll(a + b) == EncodeAll(a) + EncodeAll(b)
  {
    hide Encode;
    if a == [] {
      assert a + b == b;
    } else {
      EncodeConcat(a[1..], b);
      assert (a + b)[1..] == a[1..] + b && (a + b)[0] == a[0];
    }
  }

  lemma OneEncoded(op: Op)
    ensures EncodeAll([op]) == Encode(op)
  {}

  // ---- Blocks ----

  datatype Mode = Spi0 | Spi1 | Spi2 | Spi3 | I2c | Gpio

  // The part of the context that decides what a transfer looks like
  datatype Settings = Settings(mode: Mode, xsize: nat, tx: Command, rx: Command, txrx: Command,
                               pstart: Port, tris: Port, tack: Byte)

  predicate Sane(cfg: Settings) {
    1 <= cfg.xsize <= 0x1_0000 && SaneCommands(cfg.tx, cfg.rx, cfg.txrx)
  }

  predicate SaneCommands(tx: Command, rx: Command, txrx: Command) {
    && tx.write && !tx.read && !rx.write && rx.read && txrx.write && txrx.read
    && tx.bit == rx.bit == txrx.bit
  }

  // The size of a block of data
  function XferSize(cfg: Settings, cmd: Command): nat {
    if cfg.mode.I2c? || cmd.bit then 1 else cfg.xsize
  }

  function Min(a: nat, b: nat): (m: nat)
    ensures m <= a && m <= b && (m == a || m == b)
  {
    if a < b then a else b
  }

  // Clock low, before data is clocked on the I2C bus or its ACK bit
  function ClockLow(cfg: Settings, tris: Port): Op {
    SetLow(PortByte(cfg.pstart.(sk := false)), PortByte(tris))
  }

  // One block of build_block_buffer
  function Block(cfg: Settings, cmd: Command, data: Bytes, count: nat): seq<Op> {
    BlockStart(cfg, cmd) + [Clock(cmd, count, data)] + BlockEnd(cfg, cmd)
  }

  function BlockStart(cfg: Settings, cmd: Command): seq<Op> {
    if !cfg.mode.I2c? then []
    else [ClockLow(cfg, if cmd == cfg.rx then cfg.tris.(do := false) else cfg.tris)]
  }

  // The ACK bit: sent after a byte read, read after a byte sent
  function BlockEnd(cfg: Settings, cmd: Command): seq<Op> {
    if !cfg.mode.I2c? then []
    else if cmd == cfg.rx then [ClockLow(cfg, cfg.tris), Clock(cfg.tx.(bit := true), 1, [cfg.tack])]
    else if cmd == cfg.tx then
      [ClockLow(cfg, cfg.tris.(do := false)), Clock(cfg.rx.(bit := true), 1, []), Single(SEND_IMMEDIATE)]
    else []
  }

  function WriteBlocks(cfg: Settings, cmd: Command, data: Bytes): seq<Op>
    requires Sane(cfg)
  {
    if data == [] then [] else
    var n := Min(XferSize(cfg, cmd), |data|);
    Block(cfg, cmd, data[..n], n) + WriteBlocks(cfg, cmd, data[n..])
  }

  // For a read the source takes the size of every block from the whole size.
  function ReadBlocks(cfg: Settings, count: nat, blocks: nat): seq<Op> {
    if blocks == 0 then [] else Block(cfg, cfg.rx, [], count) + ReadBlocks(cfg, count, blocks - 1)
  }

  function NumBlocks(size: nat, xfer: nat): nat
    requires xfer > 0
  {
    size / xfer + if size % xfer != 0 then 1 else 0
  }

  // What build_block_buffer compiles a transfer to; the data matters for a write only.
  function BlockOps(cfg: Settings, cmd: Command, data: Bytes): seq<Op>
    requires Sane(cfg)
  {
    if cmd == cfg.rx then
      ReadBlocks(cfg, Min(XferSize(cfg, cmd), |data|), NumBlocks(|data|, XferSize(cfg, cmd)))
    else WriteBlocks(cfg, cmd, data)
  }

  // The bytes build_block_buffer allocates
  function TotalSize(cfg: Settings, cmd: Command, size: nat): nat
    requires Sane(cfg)
  {
    var blocks := NumBlocks(size, XferSize(cfg, cmd));
    size + 3 * blocks + if cfg.mode.I2c? then 9 * blocks else 0
  }

  // ---- Every block is proper and fits ----

  lemma BlockProper(cfg: Settings, cmd: Command, data: Bytes, count: nat)
    requires Sane(cfg) && cmd in {cfg.tx, cfg.rx, cfg.txrx}
    requires 1 <= count <= XferSize(cfg, cmd) && |data| == if cmd == cfg.rx then 0 else count
    ensures AllProper(Block(cfg, cmd, data, count))
    ensures |EncodeAll(Block(cfg, cmd, data, count))| <= |data| + if cfg.mode.I2c? then 12 else 3
  {
    hide Code, PortByte;
    BlockSize(cfg, cmd, data, count);
  }

  lemma BlockSize(cfg: Settings, cmd: Command, data: Bytes, count: nat)
    ensures |EncodeAll(Block(cfg, cmd, data, count))| <= |data| + if cfg.mode.I2c? then 12 else 3
  {
    hide Code, PortByte;
    var a, c, e := BlockStart(cfg, cmd), [Clock(cmd, count, data)], BlockEnd(cfg, cmd);
    EncodeConcat(a + c, e);
    EncodeConcat(a, c);
    assert |EncodeAll(c)| <= 3 + |data| by {
      assert EncodeAll(c) == Encode(c[0]) + EncodeAll([]);
    }
    assert |EncodeAll(a)| <= if cfg.mode.I2c? then 3 else 0;
    EndSize(cfg, cmd);
  }

  lemma EndSize(cfg: Settings, cmd: Command)
    ensures |EncodeAll(BlockEnd(cfg, cmd))| <= if cfg.mode.I2c? then 6 else 0
  {
    hide Code, PortByte;
    var e := BlockEnd(cfg, cmd);
    if e != [] {
      assert EncodeAll(e) == Encode(e[0]) + EncodeAll(e[1..]);
      assert EncodeAll(e[1..]) == Encode(e[1]) + EncodeAll(e[1..][1..]);
      if |e| == 3 {
        assert e[1..][1..] == [e[2]];
        assert EncodeAll([e[2]]) == Encode(e[2]) + EncodeAll([e[2]][1..]);
      }
    }
  }

  lemma NumBlocksStep(size: nat, xfer: nat)
    requires 0 < size && 0 < xfer
    ensures NumBlocks(size, xfer) == 1 + NumBlocks(size - Min(xfer, size), xfer)
  {
    if size >= xfer {
      DivStep(size - xfer, xfer);
    } else {
      SmallDiv(size, xfer);
      SmallDiv(0, xfer);
    }
  }

  lemma DivStep(n: nat, d: nat)
    requires d > 0
    ensures (n + d) / d == n / d + 1 && (n + d) % d == n % d
  {
    var q, r := n / d, n % d;
    assert n + d == d * (q + 1) + r by {
      assert n == d * q + r;
    }
    QuotientUnique(n + d, d, q + 1, r);
  }

  lemma SmallDiv(n: nat, d: nat)
    requires n < d
    ensures n / d == 0 && n % d == n
  {}

  lemma QuotientUnique(n: nat, d: nat, q: nat, r: nat)
    requires 0 < d && n == d * q + r && r < d
    ensures n / d == q && n % d == r
  {
    var p := n / d - q;
    assert d * p == r - n % d by {
      assert n == d * (n / d) + n % d;
      assert d * p == d * (n / d) - d * q;
    }
    if p > 0 {
      AtLeast(d, p);
    } else if p < 0 {
      AtLeast(d, -p);
    }
  }

  lemma AtLeast(d: int, p: int)
    requires d >= 0 && p >= 1
    ensures d * p >= d && d * -p <= -d
  {}

  // The stream of a write is proper and fits the buffer allocated for it.
  lemma {:induction false} WriteFits(cfg: Settings, cmd: Command, data: Bytes)
    requires Sane(cfg) && cmd in {cfg.tx, cfg.txrx}
    ensures AllProper(WriteBlocks(cfg, cmd, data))
    ensures |EncodeAll(WriteBlocks(cfg, cmd, data))| <= TotalSize(cfg, cmd, |data|)
  {
    hide Block, Proper, EncodeAll;
    NothingEncoded();
    if data == [] {
      SmallDiv(0, XferSize(cfg, cmd));
    } else {
      var n := Min(XferSize(cfg, cmd), |data|);
      WriteFits(cfg, cmd, data[n..]);
      BlockProper(cfg, cmd, data[..n], n);
      NumBlocksStep(|data|, XferSize(cfg, cmd));
      EncodeConcat(Block(cfg, cmd, data[..n], n), WriteBlocks(cfg, cmd, data[n..]));
    }
  }

  lemma {:induction false} ReadFits(cfg: Settings, count: nat, blocks: nat)
    requires Sane(cfg) && 1 <= count <= XferSize(cfg, cfg.rx)
    ensures AllProper(ReadBlocks(cfg, count, blocks))
    ensures |EncodeAll(ReadBlocks(cfg, count, blocks))| <= 3 * blocks + if cfg.mode.I2c? then 9 * blocks else 0
  {
    hide Block, Proper, EncodeAll;
    NothingEncoded();
    if blocks > 0 {
      ReadFits(cfg, count, blocks - 1);
      BlockProper(cfg, cfg.rx, [], count);
      EncodeConcat(Block(cfg, cfg.rx, [], count), ReadBlocks(cfg, count, blocks - 1));
    }
  }

  lemma BlocksFit(cfg: Settings, cmd: Command, data: Bytes)
    requires Sane(cfg) && cmd in {cfg.tx, cfg.rx, cfg.txrx}
    ensures AllProper(BlockOps(cfg, cmd, data))
    ensures |EncodeAll(BlockOps(cfg, cmd, data))| <= TotalSize(cfg, cmd, |data|)
  {
    hide Proper;
    if cmd != cfg.rx {
      WriteFits(cfg, cmd, data);
    } else if data == [] {
      SmallDiv(0, XferSize(cfg, cmd));
    } else {
      ReadFits(cfg, Min(XferSize(cfg, cmd), |data|), NumBlocks(|data|, XferSize(cfg, cmd)));
    }
  }

  // ---- What the chip makes of it ----

  function Data(op: Op, cmd: Command): Bytes {
    if op.Clock? && op.cmd == cmd then op.data else []
  }

  function Count(op: Op, cmd: Command): nat {
    if op.Clock? && op.cmd == cmd then op.count else 0
  }

  // The bytes clocked out by one kind of command
  function Payload(ops: seq<Op>, cmd: Command): Bytes {
    if ops == [] then [] else
    Data(ops[0], cmd) + Payload(ops[1..], cmd)
  }

  // How much is clocked by one kind of command, in bytes or bits
  function Clocked(ops: seq<Op>, cmd: Command): nat {
    if ops == [] then 0 else
    Count(ops[0], cmd) + Clocked(ops[1..], cmd)
  }

  lemma {:induction false} PayloadConcat(a: seq<Op>, b: seq<Op>, cmd: Command)
    ensures Payload(a + b, cmd) == Payload(a, cmd) + Payload(b, cmd)
      && Clocked(a + b, cmd) == Clocked(a, cmd) + Clocked(b, cmd)
  {
    if a == [] {
      assert a + b == b;
    } else {
      PayloadConcat(a[1..], b, cmd);
      assert (a + b)[1..] == a[1..] + b && (a + b)[0] == a[0];
    }
  }

  // A block carries its data, and on I2C a write also reads one ACK bit.
  lemma BlockPayload(cfg: Settings, cmd: Command, data: Bytes, count: nat)
    requires Sane(cfg) && cmd in {cfg.tx, cfg.txrx} && (cfg.mode.I2c? ==> cmd == cfg.tx)
    ensures Payload(Block(cfg, cmd, data, count), cmd) == data && Clocked(Block(cfg, cmd, data, count), cmd) == count
    ensures Clocked(Block(cfg, cmd, data, count), cfg.rx.(bit := true)) == if cfg.mode.I2c? then 1 else 0
  {
    hide PortByte, Payload, Clocked;
    var a, c, e, ack := BlockStart(cfg, cmd), [Clock(cmd, count, data)], BlockEnd(cfg, cmd), cfg.rx.(bit := true);
    PayloadConcat(a + c, e, cmd);
    PayloadConcat(a, c, cmd);
    PayloadConcat(a + c, e, ack);
    PayloadConcat(a, c, ack);
    NoPayload(cmd);
    NoPayload(ack);
    PayloadOfOne(c[0], cmd);
    PayloadOfOne(c[0], ack);
    if cfg.mode.I2c? {
      PayloadOfOne(a[0], cmd);
      PayloadOfOne(a[0], ack);
      PayloadOfThree(e[0], e[1], e[2], cmd);
      PayloadOfThree(e[0], e[1], e[2], ack);
    }
    assert [] + data + [] == data;
  }

  lemma NoPayload(cmd: Command)
    ensures Payload([], cmd) == [] && Clocked([], cmd) == 0
  {}

  lemma PayloadOfOne(x: Op, cmd: Command)
    ensures Payload([x], cmd) == Data(x, cmd) && Clocked([x], cmd) == Count(x, cmd)
  {}

  lemma PayloadOfThree(x: Op, y: Op, z: Op, cmd: Command)
    ensures Payload([x, y, z], cmd) == Data(x, cmd) + Data(y, cmd) + Data(z, cmd)
    ensures Clocked([x, y, z], cmd) == Count(x, cmd) + Count(y, cmd) + Count(z, cmd)
  {
    PayloadConcat([x, y], [z], cmd);
    PayloadConcat([x], [y], cmd);
    assert [x, y] + [z] == [x, y, z] && [x] + [y] == [x, y];
    PayloadOfOne(x, cmd);
    PayloadOfOne(y, cmd);
    PayloadOfOne(z, cmd);
  }

  // The chip clocks out exactly the data of a write, in order, and on I2C reads one ACK bit
  // for every byte.
  lemma {:induction false} WritePayload(cfg: Settings, cmd: Command, data: Bytes)
    requires Sane(cfg) && cmd in {cfg.tx, cfg.txrx} && (cfg.mode.I2c? ==> cmd == cfg.tx)
    ensures var ops := WriteBlocks(cfg, cmd, data);
      && Payload(ops, cmd) == data && Clocked(ops, cmd) == |data|
      && Clocked(ops, cfg.rx.(bit := true)) == if cfg.mode.I2c? then |data| else 0
  {
    hide Block, Payload, Clocked;
    NoPayload(cmd);
    NoPayload(cfg.rx.(bit := true));
    if data != [] {
      var n := Min(XferSize(cfg, cmd), |data|);
      var first, rest := Block(cfg, cmd, data[..n], n), WriteBlocks(cfg, cmd, data[n..]);
      WritePayload(cfg, cmd, data[n..]);
      BlockPayload(cfg, cmd, data[..n], n);
      PayloadConcat(first, rest, cmd);
      PayloadConcat(first, rest, cfg.rx.(bit := true));
      assert data[..n] + data[n..] == data;
    }
  }

  // A read asks for blocks of one size.
  lemma {:induction false} ReadClocked(cfg: Settings, count: nat, blocks: nat)
    requires Sane(cfg)
    ensures Clocked(ReadBlocks(cfg, count, blocks), cfg.rx) == blocks * count
  {
    hide Block, Clocked, Payload;
    NoPayload(cfg.rx);
    if blocks > 0 {
      assert blocks * count == (blocks - 1) * count + count;
      ReadClocked(cfg, count, blocks - 1);
      PayloadConcat(Block(cfg, cfg.rx, [], count), ReadBlocks(cfg, count, blocks - 1), cfg.rx);
      ReadBlockClocked(cfg, count);
    }
  }

  lemma ReadBlockClocked(cfg: Settings, count: nat)
    requires Sane(cfg)
    ensures Clocked(Block(cfg, cfg.rx, [], count), cfg.rx) == count
  {
    hide PortByte, Payload, Clocked;
    var a, c, e := BlockStart(cfg, cfg.rx), [Clock(cfg.rx, count, [])], BlockEnd(cfg, cfg.rx);
    PayloadConcat(a + c, e, cfg.rx);
    PayloadConcat(a, c, cfg.rx);
    NoPayload(cfg.rx);
    PayloadOfOne(c[0], cfg.rx);
    if cfg.mode.I2c? {
      PayloadOfOne(a[0], cfg.rx);
      PayloadConcat([e[0]], [e[1]], cfg.rx);
      PayloadOfOne(e[0], cfg.rx);
      PayloadOfOne(e[1], cfg.rx);
      assert [e[0]] + [e[1]] == e;
    }
  }

  // A read asks for exactly its size if and only if that is at most one block or a multiple
  // of the block size; otherwise it asks for more.
  lemma ReadExact(cfg: Settings, data: Bytes)
    requires Sane(cfg)
    ensures var x := XferSize(cfg, cfg.rx);
      && Clocked(BlockOps(cfg, cfg.rx, data), cfg.rx) >= |data|
      && (Clocked(BlockOps(cfg, cfg.rx, data), cfg.rx) == |data| <==> |data| <= x || |data| % x == 0)
  {
    var x, n := XferSize(cfg, cfg.rx), |data|;
    ReadClocked(cfg, Min(x, n), NumBlocks(n, x));
    ReadArithmetic(n, x);
  }

  lemma ReadArithmetic(n: nat, x: nat)
    requires x > 0
    ensures NumBlocks(n, x) * Min(x, n) >= n
    ensures NumBlocks(n, x) * Min(x, n) == n <==> n <= x || n % x == 0
  {}

  // ---- Whole transfers ----

  function Flatten(buffers: seq<Bytes>): Bytes {
    if buffers == [] then [] else buffers[0] + Flatten(buffers[1..])
  }

  // How much of the data Write puts into one buffer
  function ChunkSize(cfg: Settings): nat {
    if cfg.mode.I2c? then 1 else cfg.xsize
  }

  // The buffers of a Write that nothing interrupts
  function WritePlan(cfg: Settings, data: Bytes): seq<Bytes>
    requires Sane(cfg)
  {
    if data == [] then [] else
    var n := Min(ChunkSize(cfg), |data|);
    [EncodeAll(WriteBlocks(cfg, cfg.tx, data[..n]))] + WritePlan(cfg, data[n..])
  }

  // The same, operation by operation
  function PlanOps(cfg: Settings, data: Bytes): seq<Op>
    requires Sane(cfg)
  {
    if data == [] then [] else
    var n := Min(ChunkSize(cfg), |data|);
    WriteBlocks(cfg, cfg.tx, data[..n]) + PlanOps(cfg, data[n..])
  }

  lemma {:induction false} PlanIsItsOps(cfg: Settings, data: Bytes)
    requires Sane(cfg)
    ensures Flatten(WritePlan(cfg, data)) == EncodeAll(PlanOps(cfg, data)) && AllProper(PlanOps(cfg, data))
    ensures Payload(PlanOps(cfg, data), cfg.tx) == data && Clocked(PlanOps(cfg, data), cfg.tx) == |data|
    ensures Clocked(PlanOps(cfg, data), cfg.rx.(bit := true)) == if cfg.mode.I2c? then |data| else 0
  {
    hide WriteBlocks, EncodeAll, Payload, Clocked, Proper;
    if data == [] {
      NothingEncoded();
      NoPayload(cfg.tx);
      NoPayload(cfg.rx.(bit := true));
    } else {
      var n := Min(ChunkSize(cfg), |data|);
      var first, rest := WriteBlocks(cfg, cfg.tx, data[..n]), PlanOps(cfg, data[n..]);
      PlanIsItsOps(cfg, data[n..]);
      WritePayload(cfg, cfg.tx, data[..n]);
      WriteFits(cfg, cfg.tx, data[..n]);
      EncodeConcat(first, rest);
      PayloadConcat(first, rest, cfg.tx);
      PayloadConcat(first, rest, cfg.rx.(bit := true));
      assert data[..n] + data[n..] == data;
      var plan := WritePlan(cfg, data);
      assert plan[0] == EncodeAll(first) && plan[1..] == WritePlan(cfg, data[n..]);
    }
  }

  lemma NothingEncoded()
    ensures EncodeAll([]) == []
  {}

  // The chip, decoding everything that Write sends, clocks out exactly the data, in order, and
  // on I2C clocks in one ACK bit for every byte.
  lemma WriteRecovered(cfg: Settings, data: Bytes)
    requires Sane(cfg)
    ensures var r := Decode(Flatten(WritePlan(cfg, data)));
      && r.Some? && Payload(r.value, cfg.tx) == data && Clocked(r.value, cfg.tx) == |data|
      && Clocked(r.value, cfg.rx.(bit := true)) == if cfg.mode.I2c? then |data| else 0
  {
    PlanIsItsOps(cfg, data);
    DecodeEncoded(PlanOps(cfg, data));
  }

  // ---- The fast path ----

  const FAST_BUFFER := 63 * 1024 + 3

  // fast_build_block_buffer for a write: the data is left out where it does not fit.
  function FastBuffer(cfg: Settings, data: Bytes): Bytes {
    var rsize := |data| + 0xFFFF;
    [Code(cfg.tx), rsize % 256, rsize / 256 % 256] + if 3 + |data| <= FAST_BUFFER then data else []
  }

  // The buffers of a FastWrite that nothing interrupts
  function FastPlan(cfg: Settings, data: Bytes): seq<Bytes>
    requires Sane(cfg)
  {
    if data == [] then [] else
    var n := Min(cfg.xsize, |data|);
    [FastBuffer(cfg, data[..n])] + FastPlan(cfg, data[n..])
  }

  lemma OneBlock(cfg: Settings, data: Bytes)
    requires Sane(cfg) && !cfg.mode.I2c? && !cfg.tx.bit && 1 <= |data| <= cfg.xsize && 3 + |data| <= FAST_BUFFER
    ensures EncodeAll(WriteBlocks(cfg, cfg.tx, data)) == FastBuffer(cfg, data)
  {
    hide Code, Header;
    var op := Clock(cfg.tx, |data|, data);
    SingleBlock(cfg, data);
    FastHeader(cfg, |data|);
    assert [op][1..] == [];
    assert EncodeAll([op]) == Encode(op) + EncodeAll([]) == Encode(op);
  }

  lemma SingleBlock(cfg: Settings, data: Bytes)
    requires Sane(cfg) && !cfg.mode.I2c? && !cfg.tx.bit && 1 <= |data| <= cfg.xsize
    ensures WriteBlocks(cfg, cfg.tx, data) == [Clock(cfg.tx, |data|, data)]
  {
    assert data[..|data|] == data && data[|data|..] == [];
    assert WriteBlocks(cfg, cfg.tx, []) == [];
  }

  lemma FastHeader(cfg: Settings, size: nat)
    requires !cfg.tx.bit && size > 0
    ensures Header(cfg.tx, size) == [Code(cfg.tx), (size + 0xFFFF) % 256, (size + 0xFFFF) / 256 % 256]
  {}

  // Outside I2C and bit mode the fast path hands over the same buffers.
  lemma {:induction false} FastIsTheSame(cfg: Settings, data: Bytes)
    requires Sane(cfg) && !cfg.mode.I2c? && !cfg.tx.bit && 3 + cfg.xsize <= FAST_BUFFER
    ensures FastPlan(cfg, data) == WritePlan(cfg, data)
  {
    hide EncodeAll, WriteBlocks, FastBuffer;
    if data != [] {
      var n := Min(cfg.xsize, |data|);
      OneBlock(cfg, data[..n]);
      FastIsTheSame(cfg, data[n..]);
    }
  }

  // ---- Bits ----

  // The bits a clocking command puts on the data line, of one data byte
  function LineBits(lsb: bool, count: nat, b: Byte): seq<bool> {
    if count == 0 then []
    else if lsb then [b % 2 == 1] + LineBits(lsb, count - 1, b / 2)
    else [b / 128 == 1] + LineBits(lsb, count - 1, 2 * b % 256)
  }

  // Of a clocking command: in bit mode some bits of one byte, otherwise all of every byte
  function BitsOf(op: Op): seq<bool> {
    if !op.Clock? || !op.cmd.write then []
    else if !op.cmd.bit then ByteBits(op.cmd.lsb, op.data)
    else if |op.data| == 1 then LineBits(op.cmd.lsb, op.count, op.data[0])
    else []
  }

  function ByteBits(lsb: bool, data: Bytes): seq<bool> {
    if data == [] then [] else LineBits(lsb, 8, data[0]) + ByteBits(lsb, data[1..])
  }

  function BitsOut(ops: seq<Op>): seq<bool> {
    if ops == [] then [] else BitsOf(ops[0]) + BitsOut(ops[1..])
  }

  // The size low bits, lowest first
  function LowBits(bits: Byte, size: nat): (r: seq<bool>)
    ensures |r| == size
  {
    if size == 0 then [] else [bits % 2 == 1] + LowBits(bits / 2, size - 1)
  }

  function Reverse(s: seq<bool>): (r: seq<bool>)
    ensures |r| == |s| && forall i :: 0 <= i < |s| ==> r[i] == s[|s| - 1 - i]
  {
    if s == [] then [] else Reverse(s[1..]) + [s[0]]
  }

  // The bytes WriteBits passes to Write: one for each bit, in the order of transmission
  function BitBytes(line: seq<bool>): (r: Bytes)
    ensures |r| == |line|
  {
    seq(|line|, i requires 0 <= i < |line| => if line[i] then 255 else 0)
  }

  lemma {:induction false} BitsConcat(a: seq<Op>, b: seq<Op>)
    ensures BitsOut(a + b) == BitsOut(a) + BitsOut(b)
  {
    hide BitsOf;
    if a == [] {
      assert a + b == b;
    } else {
      BitsConcat(a[1..], b);
      assert (a + b)[1..] == a[1..] + b && (a + b)[0] == a[0];
    }
  }

  // A block of a write puts the bits of its data on the line; reading the ACK bit of I2C puts
  // none there.
  lemma BlockBits(cfg: Settings, data: Bytes, count: nat)
    requires Sane(cfg)
    ensures BitsOut(Block(cfg, cfg.tx, data, count)) == BitsOf(Clock(cfg.tx, count, data))
  {
    hide PortByte, BitsOut, BitsOf;
    var start, op, end := BlockStart(cfg, cfg.tx), Clock(cfg.tx, count, data), BlockEnd(cfg, cfg.tx);
    BitsConcat(start + [op], end);
    BitsConcat(start, [op]);
    BitsOfOne(op);
    NoBits();
    if cfg.mode.I2c? {
      SilentOp(start[0]);
      BitsConcat([end[0]], [end[1]] + [end[2]]);
      BitsConcat([end[1]], [end[2]]);
      SilentOp(end[0]);
      SilentOp(end[1]);
      SilentOp(end[2]);
      assert end == [end[0]] + ([end[1]] + [end[2]]);
    }
    assert [] + BitsOf(op) + [] == BitsOf(op);
  }

  lemma BitsOfOne(op: Op)
    ensures BitsOut([op]) == BitsOf(op)
  {
    assert [op][1..] == [];
  }

  lemma SilentOp(op: Op)
    requires op.Clock? ==> !op.cmd.write
    ensures BitsOut([op]) == []
  {}

  lemma NoBits()
    ensures BitsOut([]) == []
  {}

  lemma ClockedBit(cmd: Command, b: bool)
    requires cmd.write && cmd.bit
    ensures BitsOf(Clock(cmd, 1, [if b then 255 else 0])) == [b]
  {
    assert LineBits(cmd.lsb, 1, if b then 255 else 0) == [b];
  }

  lemma {:induction false} BlocksOfBits(cfg: Settings, line: seq<bool>)
    requires Sane(cfg) && cfg.tx.bit
    ensures BitsOut(WriteBlocks(cfg, cfg.tx, BitBytes(line))) == line
  {
    hide Block, BitsOut, BitsOf;
    var data := BitBytes(line);
    if line == [] {
      NoBits();
    } else {
      BlocksOfBits(cfg, line[1..]);
      assert data[1..] == BitBytes(line[1..]) && data[..1] == [if line[0] then 255 else 0];
      BlockBits(cfg, data[..1], 1);
      ClockedBit(cfg.tx, line[0]);
      BitsConcat(Block(cfg, cfg.tx, data[..1], 1), WriteBlocks(cfg, cfg.tx, data[1..]));
      assert [line[0]] + line[1..] == line;
    }
  }

  lemma {:induction false} PlanOfBits(cfg: Settings, line: seq<bool>)
    requires Sane(cfg) && cfg.tx.bit
    ensures BitsOut(PlanOps(cfg, BitBytes(line))) == line
  {
    hide WriteBlocks, BitsOut;
    var data := BitBytes(line);
    if line == [] {
      NoBits();
    } else {
      var n := Min(ChunkSize(cfg), |line|);
      PlanOfBits(cfg, line[n..]);
      BlocksOfBits(cfg, line[..n]);
      assert data[..n] == BitBytes(line[..n]) && data[n..] == BitBytes(line[n..]);
      BitsConcat(WriteBlocks(cfg, cfg.tx, data[..n]), PlanOps(cfg, data[n..]));
      assert line[..n] + line[n..] == line;
    }
  }

  // In bit mode the chip puts exactly the given bits on the line, in order, whatever the mode
  // of the bus and however many transfers they take.
  lemma BitsRecovered(cfg: Settings, line: seq<bool>)
    requires Sane(cfg) && cfg.tx.bit
    ensures var r := Decode(Flatten(WritePlan(cfg, BitBytes(line))));
      r.Some? && BitsOut(r.value) == line
  {
    hide PlanOps, BitBytes, BitsOut;
    PlanIsItsOps(cfg, BitBytes(line));
    DecodeEncoded(PlanOps(cfg, BitBytes(line)));
    PlanOfBits(cfg, line);
  }

  // ---- Bytes on the line ----

  lemma {:induction false} ByteBitsConcat(lsb: bool, a: Bytes, b: Bytes)
    ensures ByteBits(lsb, a + b) == ByteBits(lsb, a) + ByteBits(lsb, b)
  {
    hide LineBits;
    if a == [] {
      assert a + b == b;
    } else {
      ByteBitsConcat(lsb, a[1..], b);
      assert (a + b)[1..] == a[1..] + b && (a + b)[0] == a[0];
    }
  }

  lemma BytesClocked(cmd: Command, data: Bytes)
    requires cmd.write && !cmd.bit
    ensures BitsOf(Clock(cmd, |data|, data)) == ByteBits(cmd.lsb, data)
  {}

  lemma {:induction false} BlocksOfBytes(cfg: Settings, data: Bytes)
    requires Sane(cfg) && !cfg.tx.bit
    ensures BitsOut(WriteBlocks(cfg, cfg.tx, data)) == ByteBits(cfg.tx.lsb, data)
  {
    hide Block, BitsOut, BitsOf;
    if data == [] {
      NoBits();
    } else {
      var n := Min(XferSize(cfg, cfg.tx), |data|);
      BlocksOfBytes(cfg, data[n..]);
      BlockBits(cfg, data[..n], n);
      BytesClocked(cfg.tx, data[..n]);
      BitsConcat(Block(cfg, cfg.tx, data[..n], n), WriteBlocks(cfg, cfg.tx, data[n..]));
      ByteBitsConcat(cfg.tx.lsb, data[..n], data[n..]);
      assert data[..n] + data[n..] == data;
    }
  }

  lemma {:induction false} PlanOfBytes(cfg: Settings, data: Bytes)
    requires Sane(cfg) && !cfg.tx.bit
    ensures BitsOut(PlanOps(cfg, data)) == ByteBits(cfg.tx.lsb, data)
  {
    hide WriteBlocks, BitsOut, ByteBits;
    if data == [] {
      NoBits();
      NoBytes(cfg.tx.lsb);
    } else {
      var n := Min(ChunkSize(cfg), |data|);
      PlanOfBytes(cfg, data[n..]);
      BlocksOfBytes(cfg, data[..n]);
      BitsConcat(WriteBlocks(cfg, cfg.tx, data[..n]), PlanOps(cfg, data[n..]));
      ByteBitsConcat(cfg.tx.lsb, data[..n], data[n..]);
      assert data[..n] + data[n..] == data;
    }
  }

  lemma NoBytes(lsb: bool)
    ensures ByteBits(lsb, []) == []
  {}

  // The line carries the bits of the data, byte by byte, each in the order of the command: bit
  // by bit, which bit of which byte.
  predicate Spells(line: seq<bool>, lsb: bool, data: Bytes) {
    && |line| == 8 * |data|
    && forall p, i :: 0 <= p < |data| && 0 <= i < 8 ==> SpelledAt(line, lsb, data, p, i)
  }

  predicate SpelledAt(line: seq<bool>, lsb: bool, data: Bytes, p: nat, i: nat)
    requires |line| == 8 * |data| && p < |data| && i < 8
  {
    line[8 * p + i] == BitAt(data[p], if lsb then i else 7 - i)
  }

  lemma {:induction false} BitOrder(lsb: bool, data: Bytes)
    ensures Spells(ByteBits(lsb, data), lsb, data)
  {
    hide LineBits, BitAt;
    if data != [] {
      var first, rest := LineBits(lsb, 8, data[0]), ByteBits(lsb, data[1..]);
      BitOrder(lsb, data[1..]);
      LineBitsAt(lsb, 8, data[0]);
      forall p, i | 0 <= p < |data| && 0 <= i < 8 ensures SpelledAt(first + rest, lsb, data, p, i) {
        if p > 0 {
          assert SpelledAt(rest, lsb, data[1..], p - 1, i);
          assert (first + rest)[8 * p + i] == rest[8 * (p - 1) + i];
        }
      }
    }
  }

  lemma {:induction false} LineBitsAt(lsb: bool, count: nat, b: Byte)
    requires count <= 8
    ensures |LineBits(lsb, count, b)| == count
    ensures forall i :: 0 <= i < count ==> LineBits(lsb, count, b)[i] == BitAt(b, if lsb then i else 7 - i)
  {
    if count > 0 {
      if lsb {
        LineBitsAt(lsb, count - 1, b / 2);
      } else {
        LineBitsAt(lsb, count - 1, 2 * b % 256);
        TopBit(b);
        forall i | 0 < i < count ensures LineBits(lsb, count, b)[i] == BitAt(b, 7 - i) {
          MovedUp(b, 7 - i);
        }
      }
    }
  }

  lemma TopBit(b: Byte)
    ensures BitAt(b, 7) == (b / 128 == 1)
  {
    assert b / 2 / 2 / 2 / 2 / 2 / 2 / 2 == b / 128;
    assert BitAt(b, 7) == BitAt(b / 2, 6) == BitAt(b / 2 / 2, 5) == BitAt(b / 2 / 2 / 2, 4);
    assert BitAt(b / 2 / 2 / 2, 4) == BitAt(b / 2 / 2 / 2 / 2, 3) == BitAt(b / 2 / 2 / 2 / 2 / 2, 2);
  }

  // Moving a byte up by one bit moves every bit but the top one.
  lemma MovedUp(b: Byte, i: nat)
    requires i < 7
    ensures BitAt(2 * b % 256, i + 1) == BitAt(b, i)
  {
    var c: Byte := 2 * b % 256 / 2;
    assert BitAt(2 * b % 256, i + 1) == BitAt(c, i);
    assert c == if b < 128 then b else b - 128;
    if b >= 128 {
      EvenTimes(i);
      WithoutTop(c, 128, i);
    }
  }

  predicate Halves(w: nat, times: nat) {
    w % 2 == 0 && (times == 0 || Halves(w / 2, times - 1))
  }

  lemma EvenTimes(i: nat)
    requires i < 7
    ensures Halves(128, i)
  {
    assert Halves(2, 0) && Halves(4, 1) && Halves(8, 2) && Halves(16, 3) && Halves(32, 4) && Halves(64, 5);
    assert Halves(4, 0) && Halves(8, 1) && Halves(16, 2) && Halves(32, 3) && Halves(64, 4);
    assert Halves(8, 0) && Halves(16, 1) && Halves(32, 2) && Halves(64, 3);
    assert Halves(16, 0) && Halves(32, 1) && Halves(64, 2) && Halves(32, 0) && Halves(64, 1) && Halves(64, 0);
  }

  lemma {:induction false} WithoutTop(c: nat, w: nat, i: nat)
    requires c + w < 256 && Halves(w, i)
    ensures BitAt(c + w, i) == BitAt(c, i)
  {
    if i > 0 {
      assert (c + w) / 2 == c / 2 + w / 2;
      WithoutTop(c / 2, w / 2, i - 1);
    }
  }

  // Decoded by the chip, everything a Write sends puts the data on the line in the bit order of
  // the command.
  lemma BytesOnTheLine(cfg: Settings, data: Bytes)
    requires Sane(cfg) && !cfg.tx.bit
    ensures var r := Decode(Flatten(WritePlan(cfg, data)));
      r.Some? && Spells(BitsOut(r.value), cfg.tx.lsb, data)
  {
    hide PlanOps, BitsOut, ByteBits, Spells;
    PlanIsItsOps(cfg, data);
    DecodeEncoded(PlanOps(cfg, data));
    PlanOfBytes(cfg, data);
    BitOrder(cfg.tx.lsb, data);
  }
}
