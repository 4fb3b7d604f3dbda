/**
  The device context of libmpsse: transfers, clock and pins. src/libmpsse/mpsse.c,
  src/libmpsse/support.c and src/libmpsse/fast.c.
*/
module Mpsse {
  import opened Common
  import opened MpsseBlocks
  import opened MpsseBus
  import opened MpsseClock
  import opened MpsseRate
  import opened MpsseSelect
  import opened MpsseSlots
  import opened MpsseStream
  import opened MpsseTrace

  // ---- Transfers ----

  // Whose pin settings show the levels wanted, and drive the outputs
  predicate Obeys(cfg: Settings, w: Wanted) {
    cfg.pstart.gpio == w.levels && (w.ready ==> cfg.tris == DEFAULT_TRIS)
  }

  lemma BlockCarries(cfg: Settings, cmd: Command, data: Bytes, count: nat, w: Wanted)
    requires Obeys(cfg, w)
    ensures OpsCarry(Block(cfg, cmd, data, count), w) && OpsSteady(Block(cfg, cmd, data, count))
  {
    hide PortByte, OpCarries;
    PortCarries(cfg.pstart.(sk := false), cfg.tris, w);
    PortCarries(cfg.pstart.(sk := false), cfg.tris.(do := false), w);
  }

  lemma JoinedCarry(a: seq<Op>, b: seq<Op>, w: Wanted)
    requires OpsCarry(a, w) && OpsCarry(b, w) && OpsSteady(a) && OpsSteady(b)
    ensures OpsCarry(a + b, w) && OpsSteady(a + b)
  {
    hide OpCarries;
  }

  lemma {:induction false} WriteCarries(cfg: Settings, cmd: Command, data: Bytes, w: Wanted)
    requires Sane(cfg) && Obeys(cfg, w)
    ensures OpsCarry(WriteBlocks(cfg, cmd, data), w) && OpsSteady(WriteBlocks(cfg, cmd, data))
  {
    hide Block, OpCarries, Obeys;
    if data != [] {
      var n := Min(XferSize(cfg, cmd), |data|);
      BlockCarries(cfg, cmd, data[..n], n, w);
      WriteCarries(cfg, cmd, data[n..], w);
      JoinedCarry(Block(cfg, cmd, data[..n], n), WriteBlocks(cfg, cmd, data[n..]), w);
    }
  }

  lemma {:induction false} ReadCarries(cfg: Settings, count: nat, blocks: nat, w: Wanted)
    requires Obeys(cfg, w)
    ensures OpsCarry(ReadBlocks(cfg, count, blocks), w) && OpsSteady(ReadBlocks(cfg, count, blocks))
  {
    hide Block, OpCarries, Obeys;
    if blocks > 0 {
      BlockCarries(cfg, cfg.rx, [], count, w);
      ReadCarries(cfg, count, blocks - 1, w);
      JoinedCarry(Block(cfg, cfg.rx, [], count), ReadBlocks(cfg, count, blocks - 1), w);
    }
  }

  // A transfer keeps the GPIO pins as they are wanted, and the clock as it is.
  lemma TransferCarries(cfg: Settings, cmd: Command, data: Bytes, w: Wanted)
    requires Sane(cfg) && cmd in {cfg.tx, cfg.rx, cfg.txrx} && Obeys(cfg, w)
    ensures Carries(EncodeAll(BlockOps(cfg, cmd, data)), w) && Steady(EncodeAll(BlockOps(cfg, cmd, data)))
  {
    hide WriteBlocks, ReadBlocks, EncodeAll, OpsCarry, OpsSteady, Obeys;
    BlocksFit(cfg, cmd, data);
    if cmd == cfg.rx {
      ReadCarries(cfg, Min(XferSize(cfg, cmd), |data|), NumBlocks(|data|, XferSize(cfg, cmd)), w);
    } else {
      WriteCarries(cfg, cmd, data, w);
    }
    EncodedCarries(BlockOps(cfg, cmd, data), w);
    EncodedSteady(BlockOps(cfg, cmd, data));
  }

  // Outside I2C a transfer does not touch the pins.
  lemma {:induction false} SilentBlocks(cfg: Settings, cmd: Command, data: Bytes)
    requires Sane(cfg) && !cfg.mode.I2c?
    ensures forall i :: 0 <= i < |WriteBlocks(cfg, cmd, data)| ==> !WriteBlocks(cfg, cmd, data)[i].SetLow?
  {
    if data != [] {
      SilentBlocks(cfg, cmd, data[Min(XferSize(cfg, cmd), |data|)..]);
    }
  }

  lemma {:induction false} SilentReads(cfg: Settings, count: nat, blocks: nat)
    requires !cfg.mode.I2c?
    ensures forall i :: 0 <= i < |ReadBlocks(cfg, count, blocks)| ==> !ReadBlocks(cfg, count, blocks)[i].SetLow?
  {
    if blocks > 0 {
      SilentReads(cfg, count, blocks - 1);
    }
  }

  lemma TransferSilent(cfg: Settings, cmd: Command, data: Bytes)
    requires Sane(cfg) && !cfg.mode.I2c? && cmd in {cfg.tx, cfg.rx, cfg.txrx}
    ensures Silent(EncodeAll(BlockOps(cfg, cmd, data)))
  {
    hide WriteBlocks, ReadBlocks, EncodeAll, NumBlocks;
    BlocksFit(cfg, cmd, data);
    if cmd == cfg.rx {
      SilentReads(cfg, Min(XferSize(cfg, cmd), |data|), NumBlocks(|data|, XferSize(cfg, cmd)));
    } else {
      SilentBlocks(cfg, cmd, data);
    }
    DecodeEncoded(BlockOps(cfg, cmd, data));
  }

  lemma {:induction false} PlanSilent(cfg: Settings, data: Bytes)
    requires Sane(cfg) && !cfg.mode.I2c?
    ensures AllSilent(WritePlan(cfg, data))
  {
    hide Silent, BlockOps, EncodeAll;
    if data != [] {
      var n := Min(ChunkSize(cfg), |data|);
      TransferSilent(cfg, cfg.tx, data[..n]);
      WriteBlocksAre(cfg, data[..n]);
      PlanSilent(cfg, data[n..]);
    }
  }

  lemma {:induction false} PlanQuiet(cfg: Settings, data: Bytes)
    requires Sane(cfg) && cfg.mode.I2c?
    ensures AllQuiet(WritePlan(cfg, data)) && (data == [] <==> WritePlan(cfg, data) == [])
  {
    hide Quiet, LinesIn, BlockOps, EncodeAll;
    if data != [] {
      var n := Min(ChunkSize(cfg), |data|);
      TransferQuiet(cfg, cfg.tx, data[..n]);
      WriteBlocksAre(cfg, data[..n]);
      PlanQuiet(cfg, data[n..]);
    }
  }

  lemma WriteBlocksAre(cfg: Settings, data: Bytes)
    requires Sane(cfg)
    ensures BlockOps(cfg, cfg.tx, data) == WriteBlocks(cfg, cfg.tx, data)
  {}

  // The buffers of an InternalRead that nothing interrupts
  function ReadPlan(cfg: Settings, size: nat): seq<Bytes>
    requires Sane(cfg)
  {
    if size == 0 then [] else
    var n := Min(cfg.xsize, size);
    [EncodeAll(BlockOps(cfg, cfg.rx, Zeros(n)))] + ReadPlan(cfg, size - n)
  }

  lemma {:induction false} ReadPlanQuiet(cfg: Settings, size: nat)
    requires Sane(cfg) && cfg.mode.I2c?
    ensures AllQuiet(ReadPlan(cfg, size)) && (size == 0 <==> ReadPlan(cfg, size) == [])
  {
    hide Quiet, LinesIn, BlockOps, EncodeAll, Zeros;
    if size > 0 {
      var n := Min(cfg.xsize, size);
      TransferQuiet(cfg, cfg.rx, Zeros(n));
      ReadPlanQuiet(cfg, size - n);
    }
  }

  lemma {:induction false} ReadPlanSilent(cfg: Settings, size: nat)
    requires Sane(cfg) && !cfg.mode.I2c?
    ensures AllSilent(ReadPlan(cfg, size))
  {
    hide Silent, BlockOps, EncodeAll, Zeros;
    if size > 0 {
      var n := Min(cfg.xsize, size);
      TransferSilent(cfg, cfg.rx, Zeros(n));
      ReadPlanSilent(cfg, size - n);
    }
  }

  lemma PlansHarmless(cfg: Settings, data: Bytes, size: nat)
    requires Sane(cfg)
    ensures Harmless(cfg.mode, |data|, WritePlan(cfg, data)) && Harmless(cfg.mode, size, ReadPlan(cfg, size))
  {
    hide WritePlan, ReadPlan, AllSilent, AllQuiet;
    if cfg.mode.I2c? {
      PlanQuiet(cfg, data);
      ReadPlanQuiet(cfg, size);
    } else {
      PlanSilent(cfg, data);
      ReadPlanSilent(cfg, size);
    }
  }

  function Zeros(n: nat): (z: Bytes)
    ensures |z| == n
  {
    seq(n, i => 0)
  }

  function ReadOps(cfg: Settings, size: nat): seq<Op>
    requires Sane(cfg)
  {
    if size == 0 then [] else
    var n := Min(cfg.xsize, size);
    BlockOps(cfg, cfg.rx, Zeros(n)) + ReadOps(cfg, size - n)
  }

  // The chip is asked for exactly as much as is to be read: bits in bit mode, bytes otherwise.
  lemma {:induction false} ReadRequested(cfg: Settings, size: nat)
    requires Sane(cfg)
    ensures Flatten(ReadPlan(cfg, size)) == EncodeAll(ReadOps(cfg, size)) && AllProper(ReadOps(cfg, size))
    ensures Clocked(ReadOps(cfg, size), cfg.rx) == size
  {
    hide BlockOps, EncodeAll, Clocked, Payload, Proper;
    NothingEncoded();
    NoPayload(cfg.rx);
    if size > 0 {
      var n := Min(cfg.xsize, size);
      ReadRequested(cfg, size - n);
      BlocksFit(cfg, cfg.rx, Zeros(n));
      ReadExact(cfg, Zeros(n));
      EncodeConcat(BlockOps(cfg, cfg.rx, Zeros(n)), ReadOps(cfg, size - n));
      PayloadConcat(BlockOps(cfg, cfg.rx, Zeros(n)), ReadOps(cfg, size - n), cfg.rx);
      var plan := ReadPlan(cfg, size);
      assert plan[0] == EncodeAll(BlockOps(cfg, cfg.rx, Zeros(n))) && plan[1..] == ReadPlan(cfg, size - n);
    }
  }

  lemma ReadRecovered(cfg: Settings, size: nat)
    requires Sane(cfg)
    ensures var r := Decode(Flatten(ReadPlan(cfg, size))); r.Some? && Clocked(r.value, cfg.rx) == size
  {
    ReadRequested(cfg, size);
    DecodeEncoded(ReadOps(cfg, size));
  }

  // Decoded by the chip, a read on I2C takes in every byte with the data line released, and answers
  // each with the acknowledgement bit that was set, driven.
  lemma ReadsOnTheLine(cfg: Settings, size: nat, driven: bool)
    requires Sane(cfg) && cfg.mode.I2c? && !cfg.rx.bit && cfg.tris.do && AckByte(cfg.tack)
    ensures var r := Decode(Flatten(ReadPlan(cfg, size)));
      r.Some? && Slots(r.value, driven) == ReadSlots(cfg.tack == 0xFF, size)
  {
    ReadRequested(cfg, size);
    DecodeEncoded(ReadOps(cfg, size));
    PlanReads(cfg, size, driven);
  }

  lemma {:induction false} PlanReads(cfg: Settings, size: nat, driven: bool)
    requires Sane(cfg) && cfg.mode.I2c? && !cfg.rx.bit && cfg.tris.do && AckByte(cfg.tack)
    ensures Slots(ReadOps(cfg, size), driven) == ReadSlots(cfg.tack == 0xFF, size)
    decreases size
  {
    hide BlockOps, Slots, DrivenAfter, Zeros, ReadSlots;
    if size == 0 {
      NoSlots(driven);
      NoReads(cfg.tack == 0xFF);
    } else {
      ZerosSize(cfg.xsize, size);
      var n := Min(cfg.xsize, size);
      var first := BlockOps(cfg, cfg.rx, Zeros(n));
      SlotsConcat(first, ReadOps(cfg, size - n), driven);
      I2cReadSlots(cfg, Zeros(n), driven);
      PlanReads(cfg, size - n, DrivenAfter(first, driven));
      ReadsAdd(cfg.tack == 0xFF, n, size - n);
    }
  }

  lemma ZerosSize(xsize: nat, size: nat)
    ensures |Zeros(Min(xsize, size))| == Min(xsize, size)
  {}

  lemma NoReads(ack: bool)
    ensures ReadSlots(ack, 0) == []
  {}

  lemma {:induction false} ReadsAdd(ack: bool, m: nat, n: nat)
    ensures ReadSlots(ack, m + n) == ReadSlots(ack, m) + ReadSlots(ack, n)
  {
    if m > 0 {
      ReadsAdd(ack, m - 1, n);
    }
  }

  // Whatever the device answers, Write and FastWrite hand it the same buffers; they report the
  // same unless there is nothing to write, which Write calls a failure.
  lemma FastMatchesWrite(cfg: Settings, data: Bytes, results: seq<bool>)
    requires Sane(cfg) && !cfg.mode.I2c? && !cfg.tx.bit && 3 + cfg.xsize <= FAST_BUFFER
    ensures SendUntil(FastPlan(cfg, data), results) == SendUntil(WritePlan(cfg, data), results)
    ensures FastCode(cfg, data, results) == WriteCode(cfg, data, results) <==> data != []
  {
    FastIsTheSame(cfg, data);
  }

  // The buffers the device took
  function Taken(events: seq<Event>): seq<Bytes> {
    if events == [] then [] else
    (if events[0].Sent? && events[0].ok then [events[0].buffer] else []) + Taken(events[1..])
  }

  lemma {:induction false} TakenPrefix(cfg: Settings, data: Bytes, results: seq<bool>) returns (m: nat)
    requires Sane(cfg)
    ensures m <= |data| && Taken(SendUntil(WritePlan(cfg, data), results)) == WritePlan(cfg, data[..m])
    ensures Succeeds(WritePlan(cfg, data), results) <==> m == |data|
  {
    hide EncodeAll, WriteBlocks, First, Rest;
    if data == [] {
      m := 0;
    } else {
      var n := Min(ChunkSize(cfg), |data|);
      var plan := WritePlan(cfg, data);
      assert plan[1..] == WritePlan(cfg, data[n..]);
      TakenFirst(plan, results);
      if First(results) {
        var more := TakenPrefix(cfg, data[n..], Rest(results));
        m := n + more;
        assert data[..m][..n] == data[..n] && data[..m][n..] == data[n..][..more];
      } else {
        m := 0;
      }
    }
  }

  lemma TakenFirst(plan: seq<Bytes>, results: seq<bool>)
    requires plan != []
    ensures Taken(SendUntil(plan, results))
      == if First(results) then [plan[0]] + Taken(SendUntil(plan[1..], Rest(results))) else []
  {}

  // Whatever the device answers, the buffers it takes during a Write decode to a prefix of the
  // data, and put its bits on the line in the order of the command; to all of it exactly if Write
  // reports success or there is nothing to write.
  lemma WriteDelivers(cfg: Settings, data: Bytes, results: seq<bool>) returns (m: nat)
    requires Sane(cfg)
    ensures var r := Decode(Flatten(Taken(SendUntil(WritePlan(cfg, data), results))));
      && m <= |data| && r.Some? && Payload(r.value, cfg.tx) == data[..m]
      && (!cfg.tx.bit ==> Spells(BitsOut(r.value), cfg.tx.lsb, data[..m]))
    ensures WriteCode(cfg, data, results) <==> m == |data| && data != []
  {
    hide WritePlan, Decode, BitsOut, Spells, Payload, Clocked;
    m := TakenPrefix(cfg, data, results);
    WriteRecovered(cfg, data[..m]);
    if !cfg.tx.bit {
      BytesOnTheLine(cfg, data[..m]);
    }
  }

  predicate WriteCode(cfg: Settings, data: Bytes, results: seq<bool>)
    requires Sane(cfg)
  {
    data != [] && Succeeds(WritePlan(cfg, data), results)
  }

  predicate FastCode(cfg: Settings, data: Bytes, results: seq<bool>)
    requires Sane(cfg)
  {
    Succeeds(FastPlan(cfg, data), results)
  }

  // ---- The context ----

  // The three pin states agree on the GPIO pins, and with what was asked for.
  predicate PinsAgree(pins: Pins, tris: Port, w: Wanted) {
    pins.idle.gpio == pins.start.gpio == pins.stop.gpio == w.levels && (w.ready ==> tris == DEFAULT_TRIS)
  }

  // The commands of a context
  datatype Commands = Commands(tx: Command, rx: Command, txrx: Command)

  // They have the bit order that was asked for.
  predicate Ordered(c: Commands, w: Wanted) {
    w.ready ==> c.tx.lsb == c.rx.lsb == c.txrx.lsb == w.lsb
  }

  predicate Coherent(open: bool, started: bool, pins: Pins, tris: Port, c: Commands, w: Wanted) {
    && (open ==> SaneCommands(c.tx, c.rx, c.txrx) && w.ready) && (started ==> open)
    && PinsAgree(pins, tris, w) && Ordered(c, w)
  }

  function WithSelect(pins: Pins, high: bool): Pins {
    Pins(pins.idle.(cs := high), pins.start.(cs := !high), pins.stop.(cs := high))
  }

  function WithLevel(pins: Pins, pin: nat, high: bool): Pins
    requires pin < 4
  {
    Pins(pins.idle.(gpio := pins.idle.gpio.Set(pin, high)), pins.start.(gpio := pins.start.gpio.Set(pin, high)),
      pins.stop.(gpio := pins.stop.gpio.Set(pin, high)))
  }

  lemma SelectCoheres(open: bool, started: bool, pins: Pins, tris: Port, c: Commands, w: Wanted, high: bool)
    requires Coherent(open, started, pins, tris, c, w)
    ensures Coherent(open, started, WithSelect(pins, high), tris, c, w)
  {}

  lemma LevelCoheres(open: bool, started: bool, pins: Pins, tris: Port, c: Commands, w: Wanted, pin: nat, high: bool)
    requires Coherent(open, started, pins, tris, c, w) && pin < 4
    ensures Coherent(open, started, WithLevel(pins, pin, high), tris, c, w.(levels := w.levels.Set(pin, high)))
  {}

  lemma CallCoheres(open: bool, started: bool, pins: Pins, tris: Port, c: Commands, w: Wanted)
    requires Coherent(open, started, pins, tris, c, w)
    ensures Coherent(open, open, pins, tris, c, w) && Coherent(open, false, pins, tris, c, w)
  {}

  // SetMode starts from the default pins and these commands.
  const DEFAULT_PINS := Pins(DEFAULT_PORT, DEFAULT_PORT.(cs := false), DEFAULT_PORT)

  function PlainCommands(lsb: bool): Commands {
    Commands(Command(true, false, lsb, false, false, false), Command(false, true, lsb, false, false, false),
      Command(true, true, lsb, false, false, false))
  }

  function ModeCommands(mode: Mode, lsb: bool): Commands {
    Commands(ModeCommand(mode, lsb, true, false), ModeCommand(mode, lsb, false, true),
      ModeCommand(mode, lsb, true, true))
  }

  lemma DefaultsCohere(open: bool, started: bool, pins: Pins, tris: Port, c: Commands, w: Wanted, lsb: bool)
    requires Coherent(open, started, pins, tris, c, w)
    ensures Coherent(open, started, DEFAULT_PINS, DEFAULT_TRIS, PlainCommands(lsb), Wanted(ALL_LOW, true, lsb))
  {}

  lemma SwitchCoheres(open: bool, started: bool, mode: Mode, pins: Pins, c: Commands, lsb: bool)
    requires Coherent(open, started, pins, DEFAULT_TRIS, c, Wanted(ALL_LOW, true, lsb))
    ensures Coherent(open, started, ModePins(mode), DEFAULT_TRIS, ModeCommands(mode, lsb), Wanted(ALL_LOW, true, lsb))
    ensures var m := ModeCommands(mode, lsb); SaneCommands(m.tx, m.rx, m.txrx) && !m.tx.bit
  {}

  function WithBit(c: Commands, bit: bool): Commands {
    Commands(c.tx.(bit := bit), c.rx.(bit := bit), c.txrx.(bit := bit))
  }

  lemma BitCoheres(open: bool, started: bool, pins: Pins, tris: Port, c: Commands, w: Wanted, bit: bool)
    requires Coherent(open, started, pins, tris, c, w)
    ensures Coherent(open, started, pins, tris, WithBit(c, bit), w)
  {}

  lemma OpeningCoheres(pins: Pins, tris: Port, c: Commands, w: Wanted)
    ensures Coherent(false, false, Pins(NO_PORT, NO_PORT, NO_PORT), NO_PORT, c, Wanted(ALL_LOW, false, false))
    ensures Coherent(false, false, pins, tris, c, w) && SaneCommands(c.tx, c.rx, c.txrx) && w.ready ==>
      Coherent(true, false, pins, tris, c, w)
  {}

  const HIGH_PINS_LOW := [false, false, false, false, false, false, false, false]

  lemma NothingYet(freq: nat, results: seq<bool>)
    ensures Carried([]) && WantedAfter([]) == Wanted(ALL_LOW, false, false) && InStep([], 0)
    ensures var events := SendUntil(ClockBuffers(freq), results); [] + events == events == events + []
  {}

  lemma NothingBetween(a: seq<Event>, lsb: bool, b: seq<Event>)
    ensures a + [Reset(lsb)] + [] + b == a + [Reset(lsb)] + b == a + ([Reset(lsb)] + b)
  {}

  // struct mpsse_context, opened in a mode other than BITBANG
  class Context {
    const mode: Mode
    const endianess: bool      // whether least significant bits come first
    const xsize: nat
    const fastBuf: array<Byte> // fast_rw_buf
    var open: bool
    var started: bool
    var tris: Port
    var pstart: Port
    var pstop: Port
    var pidle: Port
    var gpioh: seq<bool>
    var trish: Byte
    var tx: Command
    var rx: Command
    var txrx: Command
    var tack: Byte
    var clock: nat
    var results: seq<bool>     // whether the device will take the next buffers
    ghost var log: seq<Event>

    function Cfg(): Settings
      reads this
    {
      Settings(mode, xsize, tx, rx, txrx, pstart, tris, tack)
    }

    // What every step keeps, but for the clock while it is being set
    ghost predicate Sound()
      reads `open, `started, `tris, `pstart, `pstop, `pidle, `gpioh, `tx, `rx, `txrx, `tack, `log
    {
      && 1 <= xsize && xsize + 3 <= FAST_BUFFER == fastBuf.Length && |gpioh| == 8 && AckByte(tack)
      && Coherent(open, started, Pins(pidle, pstart, pstop), tris, Commands(tx, rx, txrx), WantedAfter(log))
      && Carried(log)
    }

    ghost predicate Intact()
      reads `open, `started, `tris, `pstart, `pstop, `pidle, `gpioh, `tx, `rx, `txrx, `tack, `log, `clock
    {
      Sound() && InStep(log, clock)
    }

    lemma LevelsAgree()
      requires Intact()
      ensures pidle.gpio == pstart.gpio == pstop.gpio == WantedAfter(log).levels
      ensures WantedAfter(log).ready ==> tris == DEFAULT_TRIS
    {}

    lemma CfgObeys()
      requires Intact()
      ensures Obeys(Cfg(), WantedAfter(log)) && (open ==> Sane(Cfg()))
    {}

    // What every call keeps: also the lines of the bus
    ghost predicate Valid()
      reads this
    {
      Intact() && (open ==> LinesKept(mode, log, started, pidle, pstart, pstop))
    }

    // In any run of an open I2C context the device's bus has seen exactly the expected start and
    // stop conditions, if the device took every buffer; with transfers between Start and Stop
    // only, one start for every Start and one stop for every Stop. The lines are high exactly if
    // nothing was started, written to a low GPIO pin or transferred since the last Stop or
    // SetMode, and these are the lines at which a Start makes its start condition.
    lemma BusConditions()
      requires Valid() && open && mode.I2c? && AllTaken(log)
      ensures Conditions(Bus(log)) == Expected(log)
      ensures Calm(log) ==> Conditions(Bus(log)) == Framing(log)
      ensures EndsIn(log, HIGH) <==> Undisturbed(log)
    {
      IdleExact(log);
    }

    // In any run of an open SPI context of which the device took every buffer, the slave sees what
    // the calls should show it, and no sampling edge that is not one of the data exactly if the
    // mode is 0 or 2 or it was never selected again by a Start.
    lemma SlaveSees()
      requires Valid() && open && Spi(mode) && AllTaken(log)
      ensures var s := SlaveAfter(mode, log);
        && s.wire == WireBy(mode, log) && s.idleHigh == IdleHigh(log)
        && (s.strays == 0 <==>
          mode in {Spi0, Spi2} || forall i :: 0 <= i < |log| ==> !RepeatedStart(log, i))
    {
      StraysExact(mode, log);
    }

    // In any run, the chip runs at the clock reported exactly if its base clock is the one that the
    // divisor was set for, and so it does if the device took every buffer.
    lemma ClockReported()
      requires Valid()
      ensures var c := ClockAfter(log);
        && (Rate(c.base, c.divisor) == clock <==> c.base == c.divided)
        && (AllTaken(log) ==> Rate(c.base, c.divisor) == clock)
    {
      RateExact(log, clock);
    }

    // In any run, and in every mode, a Write that the device takes puts the data on the line byte
    // by byte, each in the bit order given to the last SetMode, which opening the context calls.
    lemma WrittenInOrder(data: Bytes, i: nat)
      requires Valid() && open && !tx.bit
      requires i < |log| && log[i].Reset? && forall j :: i < j < |log| ==> !log[j].Reset?
      ensures var r := Decode(Flatten(WritePlan(Cfg(), data)));
        r.Some? && Spells(BitsOut(r.value), log[i].lsb, data)
    {
      LastModeCounts(log, i);
      BytesOnTheLine(Cfg(), data);
    }

    // OpenIndex, from the point where the device has been found: the clock is set, then the mode.
    constructor (mode: Mode, endianess: bool, freq: nat, results: seq<bool>)
      ensures Valid() && !started && this.mode == mode && this.endianess == endianess
      ensures xsize == if mode.I2c? then 64 else 63 * 1024
      ensures var clocked, left := Succeeds(ClockBuffers(freq), results), Rest(Rest(results));
        && open == (clocked && SetupOk(left))
        && log == SendUntil(ClockBuffers(freq), results)
          + (if clocked then [Reset(endianess)] + SetupEvents(mode, pidle, tris, left) else [])
        && clock == (if clocked then Achieved(freq) else 0)
        && (clocked ==>
          && tx == ModeCommand(mode, endianess, true, false) && rx == ModeCommand(mode, endianess, false, true)
          && Pins(pidle, pstart, pstop) == ModePins(mode))
    {
      hide Carried, InStep, WantedAfter, Carries, Steady, Coherent, First, Rest, SendUntil, Succeeds, SetupOk,
        SetupEvents, ModePins, ModeCommand, ClockBuffers, Achieved, LinesKept;
      this.mode := mode;
      this.endianess := endianess;
      xsize := if mode.I2c? then 64 else 63 * 1024;
      fastBuf := new Byte[FAST_BUFFER];
      open, started := false, false;
      tris, pstart, pstop, pidle := NO_PORT, NO_PORT, NO_PORT, NO_PORT;
      gpioh, trish := HIGH_PINS_LOW, 0;
      var none := Command(false, false, false, false, false, false);
      tx, rx, txrx := none, none, none;
      tack, clock := 0, 0;
      this.results := results;
      log := [];
      new;
      NothingYet(freq, results);
      OpeningCoheres(Pins(pidle, pstart, pstop), tris, Commands(tx, rx, txrx), WantedAfter(log));
      var ok := SetClock(freq);
      if ok {
        ghost var clockEvents := log;
        ok := SetMode(endianess);
        NothingBetween(clockEvents, endianess, SetupEvents(mode, pidle, tris, Rest(Rest(results))));
        OpeningKept(mode, freq, endianess, results, tris, Rest(Rest(results)));
        OpeningCoheres(Pins(pidle, pstart, pstop), tris, Commands(tx, rx, txrx), WantedAfter(log));
        if ok {
          open := true;
        }
      }
    }

    // raw_write
    method HandOver(buffer: Bytes) returns (ok: bool)
      requires Sound() && Carries(buffer, WantedAfter(log))
      modifies `log, `results
      ensures Sound() && log == old(log) + [Sent(buffer, ok)] && WantedAfter(log) == WantedAfter(old(log))
      ensures ok == First(old(results)) && results == Rest(old(results))
    {
      hide Carried, WantedAfter, Carries, Coherent, First, Rest;
      Append(log, Sent(buffer, First(results)));
      ok := First(results);
      log := log + [Sent(buffer, ok)];
      results := Rest(results);
    }

    // The same, of a buffer that does not set the clock
    method RawWrite(buffer: Bytes) returns (ok: bool)
      requires Intact() && Carries(buffer, WantedAfter(log)) && Steady(buffer)
      modifies `log, `results
      ensures Intact() && log == old(log) + [Sent(buffer, ok)] && WantedAfter(log) == WantedAfter(old(log))
      ensures ok == First(old(results)) && results == Rest(old(results))
    {
      hide Sound, Carried, InStep, WantedAfter, Carries, Steady, Coherent, First, Rest;
      StaysInStep(log, Sent(buffer, First(results)), clock);
      ok := HandOver(buffer);
    }

    // A call that marks the log
    ghost method Mark(e: Event)
      requires Intact() && !e.Sent? && !e.Reset? && !e.Level?
      modifies `log
      ensures Intact() && log == old(log) + [e] && WantedAfter(log) == WantedAfter(old(log))
    {
      hide Carried, InStep, WantedAfter, SaneCommands;
      Append(log, e);
      StaysInStep(log, e, clock);
      log := log + [e];
    }

    // set_bits_low
    method SetBitsLow(port: Port) returns (ok: bool)
      requires Intact() && port.gpio == WantedAfter(log).levels
      modifies `log, `results
      ensures Intact() && log == old(log) + [Sent(LowBuffer(port, tris), ok)]
        && WantedAfter(log) == WantedAfter(old(log))
      ensures ok == First(old(results)) && results == Rest(old(results))
    {
      hide Sound, Carried, InStep, WantedAfter, Carries, Steady, Coherent, First, Rest, PortByte;
      LevelsAgree();
      LowBufferCarries(port, tris, WantedAfter(log));
      LowSteady(port, tris);
      ok := RawWrite([SET_BITS_LOW, PortByte(port), PortByte(tris)]);
    }

    // set_bits_high
    method SetBitsHigh(value: Byte) returns (ok: bool)
      requires Intact()
      modifies `log, `results
      ensures Intact() && log == old(log) + [Sent([SET_BITS_HIGH, value, trish], ok)]
        && WantedAfter(log) == WantedAfter(old(log))
      ensures ok == First(old(results)) && results == Rest(old(results))
    {
      hide Sound, Carried, InStep, WantedAfter, Carries, Steady, Coherent, First, Rest;
      SingleFits(SetHigh(value, trish), WantedAfter(log));
      ok := RawWrite([SET_BITS_HIGH, value, trish]);
    }

    // SetClock
    method SetClock(freq: nat) returns (ok: bool)
      requires Valid()
      modifies `log, `results, `clock
      ensures Valid() && WantedAfter(log) == WantedAfter(old(log))
      ensures log == old(log) + SendUntil(ClockBuffers(freq), old(results))
        && ok == Succeeds(ClockBuffers(freq), old(results))
      ensures clock == if ok then Achieved(freq) else old(clock)
      ensures ok ==> results == Rest(Rest(old(results)))
    {
      hide Sound, Carried, InStep, WantedAfter, Carries, Steady, Coherent, First, Rest, SendUntil, Succeeds,
        LinesKept, DivisorFor, Achieved;
      if open {
        ClockKept(mode, log, started, pidle, pstart, pstop, freq, results);
      }
      ok := false;
      var select, systemClock := TCK_D5, TWELVE_MHZ;
      if freq > SIX_MHZ {
        select := TCK_X5;
        systemClock := SIXTY_MHZ;
      }
      TwoSent(ClockBuffers(freq), old(log), results);
      NotSelected(log, freq, clock);
      SingleCarries(Single(select), WantedAfter(log));
      var sent := HandOver([select]);
      if sent {
        ok := SendDivisor(freq, systemClock, old(log));
      }
    }

    // The second command
    method SendDivisor(freq: nat, systemClock: nat, ghost before: seq<Event>) returns (ok: bool)
      requires Sound() && systemClock == SystemClock(freq) && InStep(before, clock)
      requires log == before + [Sent(ClockBuffers(freq)[0], true)]
      modifies `log, `results, `clock
      ensures Intact() && WantedAfter(log) == WantedAfter(old(log))
      ensures log == old(log) + [Sent(ClockBuffers(freq)[1], ok)] && clock == if ok then Achieved(freq) else old(clock)
      ensures ok == First(old(results)) && results == Rest(old(results))
    {
      hide Sound, Carried, InStep, WantedAfter, Carries, Steady, Coherent, First, Rest, Freq2Div, Div2Freq;
      var divisor := 0xFFFF;
      if freq > 0 {
        divisor := Freq2Div(systemClock, freq);
      }
      ClockSet(before, freq, First(results), clock);
      SingleCarries(Divisor(divisor % 256, divisor / 256), WantedAfter(log));
      ok := HandOver([TCK_DIVISOR, divisor % 256, divisor / 256]);
      if ok {
        clock := Div2Freq(systemClock, divisor);
      }
    }

    // SetMode
    method SetMode(lsb: bool) returns (ok: bool)
      requires Valid()
      modifies `log, `results, `tx, `rx, `txrx, `tris, `pidle, `pstart, `pstop, `tack, `trish, `gpioh
      ensures Valid() && SaneCommands(tx, rx, txrx) && !tx.bit && tris == DEFAULT_TRIS
      ensures Commands(tx, rx, txrx) == ModeCommands(mode, lsb) && Pins(pidle, pstart, pstop) == ModePins(mode)
      ensures WantedAfter(log) == Wanted(ALL_LOW, true, lsb)
      ensures var loopback := if open then [Sent([LOOPBACK_END], First(old(results)))] else [];
        var left := if open then Rest(old(results)) else old(results);
        && log == old(log) + [Reset(lsb)] + loopback + SetupEvents(mode, pidle, tris, left)
        && ok == SetupOk(left)
      ensures ok ==> trish == 0xFF && gpioh == HIGH_PINS_LOW
    {
      hide Sound, Carried, InStep, WantedAfter, Carries, Steady, Coherent, First, Rest, LowBuffer,
        ModePins, ModeCommand, SetupEvents, SetupOk, LinesKept;
      if open {
        ModeKept(mode, log, lsb, started, pidle, pstart, pstop, DEFAULT_TRIS, First(results), Rest(results));
      }
      DefaultPins(lsb);
      LoopbackOff();
      ModeSwitch(lsb);
      ok := SendModeSetup();
    }

    // SetLoopback and SetAck, as SetMode calls them
    method LoopbackOff()
      requires Intact()
      modifies `log, `results, `tack
      ensures Intact() && WantedAfter(log) == WantedAfter(old(log))
      ensures log == old(log) + if open then [Sent([LOOPBACK_END], First(old(results)))] else []
      ensures results == if open then Rest(old(results)) else old(results)
    {
      hide Carried, InStep, WantedAfter, Carries, Steady, Coherent, First, Rest;
      if open {
        SingleFits(Single(LOOPBACK_END), WantedAfter(log));
        var _ := RawWrite([LOOPBACK_END]);
        tack := 0x00;
      } else {
        assert log + [] == log;
      }
    }

    // What SetMode sends once commands and pins are set
    method SendModeSetup() returns (ok: bool)
      requires Intact()
      modifies `log, `results, `trish, `gpioh
      ensures Intact() && WantedAfter(log) == WantedAfter(old(log))
      ensures log == old(log) + SetupEvents(mode, pidle, tris, old(results)) && ok == SetupOk(old(results))
      ensures ok ==> trish == 0xFF && gpioh == HIGH_PINS_LOW
    {
      hide Carried, InStep, WantedAfter, Carries, Steady, Coherent, First, Rest, LowBuffer, SetupBuffer,
        SetupEvents, SetupOk;
      SetupUnfold(log, mode, pidle, tris, results);
      ok := SetupCommands();
      if ok {
        LevelsAgree();
        var _ := SetBitsLow(pidle);
        trish, gpioh := 0xFF, HIGH_PINS_LOW;
        ok := SetBitsHigh(0);
      }
    }

    method DefaultPins(lsb: bool)
      requires Intact()
      modifies `log, `tx, `rx, `txrx, `tris, `pidle, `pstart, `pstop
      ensures Intact() && log == old(log) + [Reset(lsb)] && WantedAfter(log) == Wanted(ALL_LOW, true, lsb)
      ensures Commands(tx, rx, txrx) == PlainCommands(lsb)
      ensures tris == DEFAULT_TRIS && Pins(pidle, pstart, pstop) == DEFAULT_PINS
    {
      hide Carried, InStep, WantedAfter, Carries, Steady, Coherent, PlainCommands, DEFAULT_PINS, DEFAULT_TRIS;
      DefaultsCohere(open, started, Pins(pidle, pstart, pstop), tris, Commands(tx, rx, txrx), WantedAfter(log), lsb);
      Append(log, Reset(lsb));
      StaysInStep(log, Reset(lsb), clock);
      log := log + [Reset(lsb)];
      var c, pins := PlainCommands(lsb), DEFAULT_PINS;
      tx, rx, txrx := c.tx, c.rx, c.txrx;
      tris := DEFAULT_TRIS;
      pidle, pstart, pstop := pins.idle, pins.start, pins.stop;
    }

    // The commands and the pins of each mode
    method ModeSwitch(lsb: bool)
      requires Intact() && WantedAfter(log) == Wanted(ALL_LOW, true, lsb) && tris == DEFAULT_TRIS
      requires Pins(pidle, pstart, pstop) == DEFAULT_PINS && Commands(tx, rx, txrx) == PlainCommands(lsb)
      modifies `tx, `rx, `txrx, `pidle, `pstart, `pstop
      ensures Intact() && SaneCommands(tx, rx, txrx) && !tx.bit
      ensures Commands(tx, rx, txrx) == ModeCommands(mode, lsb) && Pins(pidle, pstart, pstop) == ModePins(mode)
    {
      hide Carried, InStep, WantedAfter, Coherent, ModeCommand, ModePins, DEFAULT_PINS;
      SwitchCoheres(open, started, mode, DEFAULT_PINS, PlainCommands(lsb), lsb);
      var w, r, wr := SwitchCommands(lsb, tx, rx, txrx);
      var idle, start, stop := SwitchPins(pidle, pstart, pstop);
      tx, rx, txrx := w, r, wr;
      pidle, pstart, pstop := idle, start, stop;
    }

    method SwitchCommands(lsb: bool, tx: Command, rx: Command, txrx: Command)
      returns (w: Command, r: Command, wr: Command)
      requires Commands(tx, rx, txrx) == PlainCommands(lsb)
      ensures Commands(w, r, wr) == ModeCommands(mode, lsb)
    {
      w, r, wr := tx, rx, txrx;
      match mode {
        case Spi0 =>
          w, r, wr := w.(writeNeg := true), r.(readNeg := false), wr.(writeNeg := true, readNeg := false);
        case Spi3 =>
          w, r, wr := w.(writeNeg := true), r.(readNeg := false), wr.(writeNeg := true, readNeg := false);
        case Spi1 =>
          w, r, wr := w.(writeNeg := false), r.(readNeg := true), wr.(readNeg := true, writeNeg := false);
        case Spi2 =>
          w, r, wr := w.(writeNeg := false), r.(readNeg := true), wr.(readNeg := true, writeNeg := false);
        case I2c =>
          w, r := w.(writeNeg := true), r.(readNeg := false);
        case Gpio =>
      }
    }

    method SwitchPins(pidle: Port, pstart: Port, pstop: Port) returns (idle: Port, start: Port, stop: Port)
      requires Pins(pidle, pstart, pstop) == DEFAULT_PINS
      ensures Pins(idle, start, stop) == ModePins(mode)
    {
      idle, start, stop := pidle, pstart, pstop;
      match mode {
        case Spi0 =>
          idle, start, stop := idle.(sk := false), start.(sk := false), stop.(sk := false);
        case Spi3 =>
          idle, start, stop := idle.(sk := true), start.(sk := true), stop.(sk := false);
        case Spi1 =>
          idle, start, stop := idle.(sk := false), start.(sk := false), stop.(sk := true);
        case Spi2 =>
          idle, start, stop := idle.(sk := true), start.(sk := true), stop.(sk := true);
        case I2c =>
          idle, start, stop := idle.(do := true, di := true), start.(do := false, di := false),
            stop.(do := false, di := false);
        case Gpio =>
      }
    }

    method SetupCommands() returns (ok: bool)
      requires Intact()
      modifies `log, `results
      ensures Intact() && WantedAfter(log) == WantedAfter(old(log)) && log == old(log) + [Sent(SetupBuffer(mode), ok)]
      ensures ok == First(old(results)) && results == Rest(old(results))
    {
      hide Sound, Carried, InStep, WantedAfter, Carries, Steady, Coherent, First, Rest;
      if mode.I2c? {
        PairFits(DISABLE_ADAPTIVE_CLOCK, ENABLE_3_PHASE_CLOCK, WantedAfter(log));
        ok := RawWrite([DISABLE_ADAPTIVE_CLOCK, ENABLE_3_PHASE_CLOCK]);
      } else {
        SingleFits(Single(DISABLE_ADAPTIVE_CLOCK), WantedAfter(log));
        ok := RawWrite([DISABLE_ADAPTIVE_CLOCK]);
      }
    }

    // SetCSIdle
    method SetCSIdle(idle: int)
      requires Valid()
      modifies `pidle, `pstart, `pstop, `log
      ensures Valid() && WantedAfter(log) == WantedAfter(old(log))
      ensures if !open then pidle == old(pidle) && pstart == old(pstart) && pstop == old(pstop) && log == old(log) else
        && pidle == old(pidle).(cs := idle > 0) && pstop == old(pstop).(cs := idle > 0)
        && pstart == old(pstart).(cs := idle <= 0) && log == old(log) + [Idles(idle > 0)]
    {
      hide Carried, InStep, WantedAfter, Coherent, LinesKept;
      if open {
        SelectKept(mode, log, started, pidle, pstart, pstop, idle > 0);
        Mark(Idles(idle > 0));
        SelectCoheres(open, started, Pins(pidle, pstart, pstop), tris, Commands(tx, rx, txrx),
          WantedAfter(log), idle > 0);
        if idle > 0 {
          pidle, pstop, pstart := pidle.(cs := true), pstop.(cs := true), pstart.(cs := false);
        } else {
          pidle, pstop, pstart := pidle.(cs := false), pstop.(cs := false), pstart.(cs := true);
        }
      }
    }

    // One more call of set_bits_low in a row of them
    method SetNext(port: Port, ghost done: seq<Port>, ghost before: seq<Event>, ghost answers: seq<bool>)
      returns (ok: bool)
      requires Intact() && port.gpio == WantedAfter(log).levels
      requires log == before + SendPorts(done, tris, answers) && results == After(answers, |done|)
      modifies `log, `results
      ensures Intact() && WantedAfter(log) == WantedAfter(old(log))
      ensures log == before + SendPorts(done + [port], tris, answers) && results == After(answers, |done + [port]|)
      ensures PortsOk(done + [port], answers) == (PortsOk(done, answers) && ok)
    {
      hide Sound, Carried, InStep, WantedAfter, Carries, Steady, Coherent, LowBuffer, SendPorts, PortsOk, First, Rest;
      OneMorePort(done, port, tris, answers);
      ok := SetBitsLow(port);
    }

    // Start
    method Start() returns (ok: bool)
      requires Valid()
      modifies `log, `results, `started
      ensures Valid() && WantedAfter(log) == WantedAfter(old(log)) && started == open
      ensures var ports := StartPorts(mode, old(started), pidle, pstart);
        && (if open then log == old(log) + [Begun] + SendPorts(ports, tris, old(results)) else log == old(log))
        && ok == (open && PortsOk(ports, old(results)))
    {
      hide Carried, InStep, WantedAfter, Coherent, LowBuffer, SendPorts, PortsOk, After, StartPorts, LinesKept;
      CallCoheres(open, started, Pins(pidle, pstart, pstop), tris, Commands(tx, rx, txrx), WantedAfter(log));
      if !open {
        started := false;
        return false;
      }
      StartKept(mode, log, started, pidle, pstart, pstop, tris, results);
      Mark(Begun);
      ok := StartPins();
      started := true;
    }

    // The pin states of the start condition
    method StartPins() returns (ok: bool)
      requires Intact()
      modifies `log, `results
      ensures Intact() && WantedAfter(log) == WantedAfter(old(log))
      ensures log == old(log) + SendPorts(StartPorts(mode, started, pidle, pstart), tris, old(results))
      ensures ok == PortsOk(StartPorts(mode, started, pidle, pstart), old(results))
    {
      hide Sound, Carried, InStep, WantedAfter, Coherent, LowBuffer, SendPorts, PortsOk, After, StartPorts;
      LevelsAgree();
      ghost var before, answers := log, results;
      NoPorts(before, tris, answers);
      StartSequence(mode, started, pidle, pstart);
      ok := true;
      ghost var ports: seq<Port> := [];
      if mode.I2c? && started {
        ok := SetNext(pidle.(sk := false), ports, before, answers);
        ports := ports + [pidle.(sk := false)];
        var next := SetNext(pidle, ports, before, answers);
        ports := ports + [pidle];
        ok := ok && next;
      }
      var next := SetNext(pstart, ports, before, answers);
      ports := ports + [pstart];
      ok := ok && next;
      if mode.Spi3? {
        next := SetNext(pstart.(sk := false), ports, before, answers);
        ports := ports + [pstart.(sk := false)];
        ok := ok && next;
      } else if mode.Spi1? {
        next := SetNext(pstart.(sk := true), ports, before, answers);
        ports := ports + [pstart.(sk := true)];
        ok := ok && next;
      }
    }

    // Stop
    method Stop() returns (ok: bool)
      requires Valid()
      modifies `log, `results, `started
      ensures Valid() && WantedAfter(log) == WantedAfter(old(log)) && !started
      ensures var ports := StopPorts(mode, pidle, pstop);
        var all := if PortsOk(ports, old(results)) then ports + [pidle] else ports;
        && (if open then log == old(log) + [Ended] + SendPorts(all, tris, old(results)) else log == old(log))
        && ok == (open && PortsOk(ports + [pidle], old(results)))
    {
      hide Carried, InStep, WantedAfter, Coherent, LowBuffer, SendPorts, PortsOk, After, StopPorts, LinesKept;
      CallCoheres(open, started, Pins(pidle, pstart, pstop), tris, Commands(tx, rx, txrx), WantedAfter(log));
      if !open {
        started := false;
        return false;
      }
      StopKept(mode, log, started, pidle, pstart, pstop, tris, results);
      Mark(Ended);
      ok := StopPins();
      started := false;
    }

    // The pin states of the stop condition, and the idle state if they got through
    method StopPins() returns (ok: bool)
      requires Intact()
      modifies `log, `results
      ensures Intact() && WantedAfter(log) == WantedAfter(old(log))
      ensures var ports := StopPorts(mode, pidle, pstop);
        var all := if PortsOk(ports, old(results)) then ports + [pidle] else ports;
        log == old(log) + SendPorts(all, tris, old(results)) && ok == PortsOk(ports + [pidle], old(results))
    {
      hide Sound, Carried, InStep, WantedAfter, Coherent, LowBuffer, SendPorts, PortsOk, After, StopPorts;
      LevelsAgree();
      ghost var before, answers := log, results;
      NoPorts(before, tris, answers);
      ok := true;
      ghost var ports: seq<Port> := [];
      if mode.I2c? {
        ok := SetNext(pidle.(do := false, sk := false), ports, before, answers);
        ports := ports + [pidle.(do := false, sk := false)];
      }
      var next := SetNext(pstop, ports, before, answers);
      ports := ports + [pstop];
      ok := ok && next;
      StopSequence(mode, pidle, pstop);
      NotOk(ports, pidle, tris, answers);
      if ok {
        ok := SetNext(pidle, ports, before, answers);
      }
    }

    // gpio_write
    method GpioWrite(pin: nat, high: bool) returns (ok: bool)
      requires Valid()
      modifies `log, `results, `pstart, `pidle, `pstop, `gpioh
      ensures Valid()
      // a low pin can be written while the bus is stopped
      ensures pin < 4 && !started ==>
        && pstart == old(pstart).(gpio := old(pstart).gpio.Set(pin, high))
        && pstop == old(pstop).(gpio := old(pstop).gpio.Set(pin, high))
        && pidle == old(pidle).(gpio := old(pidle).gpio.Set(pin, high))
        && log == old(log) + [Level(pin, high)] + [Sent(LowBuffer(pstart, tris), ok)] && gpioh == old(gpioh)
        && BitAt(PortByte(pstart), 4 + pin) == high
      // while it is started nothing happens
      ensures (pin < 4 && started) || pin >= 12 ==> !ok && log == old(log) && gpioh == old(gpioh)
      ensures pin >= 4 || started ==> pstart == old(pstart) && pstop == old(pstop) && pidle == old(pidle)
      ensures 4 <= pin < 12 ==>
        && gpioh == old(gpioh)[pin - 4 := high]
        && log == old(log) + [Sent([SET_BITS_HIGH, HighByte(gpioh), trish], ok)]
        && forall k: nat :: k < 8 ==> BitAt(HighByte(gpioh), k) == gpioh[k]
    {
      hide Sound, Carried, InStep, WantedAfter, Carries, Steady, Coherent, LowBuffer, HighByte, First, Rest, LinesKept;
      ok := false;
      if pin < 4 && !started {
        ok := LowGpioWrite(pin, high);
      } else if 4 <= pin < 12 {
        ok := HighGpioWrite(pin - 4, high);
      }
    }

    method LowGpioWrite(pin: nat, high: bool) returns (ok: bool)
      requires Valid() && pin < 4 && !started
      modifies `log, `results, `pstart, `pidle, `pstop
      ensures Valid()
      ensures pstart == old(pstart).(gpio := old(pstart).gpio.Set(pin, high))
      ensures pstop == old(pstop).(gpio := old(pstop).gpio.Set(pin, high))
      ensures pidle == old(pidle).(gpio := old(pidle).gpio.Set(pin, high))
      ensures log == old(log) + [Level(pin, high)] + [Sent(LowBuffer(pstart, tris), ok)]
      ensures BitAt(PortByte(pstart), 4 + pin) == high
    {
      hide Sound, Carried, InStep, WantedAfter, Carries, Steady, Coherent, LowBuffer, First, Rest, LinesKept;
      if open {
        LevelKept(mode, log, pidle, pstart, pstop, pstart.gpio.Set(pin, high), pin, high, tris, First(results));
      }
      SetLevel(pin, high);
      LevelsAgree();
      PinDriven(pstart, pin, high);
      ok := SetBitsLow(pstart);
    }

    method SetLevel(pin: nat, high: bool)
      requires Intact() && pin < 4
      modifies `log, `pstart, `pidle, `pstop
      ensures Intact() && log == old(log) + [Level(pin, high)]
      ensures Pins(pidle, pstart, pstop) == WithLevel(old(Pins(pidle, pstart, pstop)), pin, high)
    {
      hide Carried, InStep, WantedAfter, Carries, Steady, Coherent, WithLevel;
      Append(log, Level(pin, high));
      LevelCoheres(open, started, Pins(pidle, pstart, pstop), tris, Commands(tx, rx, txrx), WantedAfter(log),
        pin, high);
      StaysInStep(log, Level(pin, high), clock);
      log := log + [Level(pin, high)];
      var pins := WithLevel(Pins(pidle, pstart, pstop), pin, high);
      pidle, pstart, pstop := pins.idle, pins.start, pins.stop;
    }

    method HighGpioWrite(pin: nat, high: bool) returns (ok: bool)
      requires Valid() && pin < 8
      modifies `log, `results, `gpioh
      ensures Valid() && gpioh == old(gpioh)[pin := high]
      ensures log == old(log) + [Sent([SET_BITS_HIGH, HighByte(gpioh), trish], ok)]
      ensures forall k: nat :: k < 8 ==> BitAt(HighByte(gpioh), k) == gpioh[k]
    {
      hide Carried, InStep, WantedAfter, Carries, Steady, Coherent, HighByte, First, Rest, LinesKept;
      gpioh := gpioh[pin := high];
      HighByteBits(gpioh);
      if open {
        HighKept(mode, log, started, pidle, pstart, pstop, HighByte(gpioh), trish, First(results));
      }
      ok := SetBitsHigh(HighByte(gpioh));
    }

    // EnableBitmode
    method EnableBitmode(tf: bool)
      requires Valid()
      modifies `tx, `rx, `txrx
      ensures Valid()
      ensures if open then tx == old(tx).(bit := tf) && rx == old(rx).(bit := tf) && txrx == old(txrx).(bit := tf)
        else tx == old(tx) && rx == old(rx) && txrx == old(txrx)
    {
      hide Carried, InStep, WantedAfter, Coherent, LinesKept;
      if open {
        BitCoheres(open, started, Pins(pidle, pstart, pstop), tris, Commands(tx, rx, txrx), WantedAfter(log), tf);
        tx, rx, txrx := tx.(bit := tf), rx.(bit := tf), txrx.(bit := tf);
      }
    }

    // Write
    method Write(data: Bytes) returns (ok: bool)
      requires Valid()
      modifies `log, `results
      ensures Valid() && WantedAfter(log) == WantedAfter(old(log))
      ensures if !open then !ok && log == old(log) else
        && log == old(log) + [Transfer(|data|)] + SendUntil(WritePlan(Cfg(), data), old(results))
        && ok == WriteCode(Cfg(), data, old(results))
    {
      hide Carried, InStep, WantedAfter, Carries, Steady, SendUntil, Succeeds, WritePlan, First, Rest,
        EncodeAll, BlockOps,
        Coherent, LinesKept, Harmless, Obeys;
      ok := false;
      if open {
        CfgObeys();
        var cfg, n: nat := Cfg(), 0;
        PlansHarmless(cfg, data, 0);
        TransferKept(mode, log, started, pidle, pstart, pstop, |data|, WritePlan(cfg, data), results);
        Mark(Transfer(|data|));
        ghost var before := log;
        ghost var rest := SendUntil(WritePlan(cfg, data), results);
        assert data[0..] == data;
        while n < |data|
          invariant n <= |data| && Intact() && WantedAfter(log) == WantedAfter(old(log))
          invariant rest == SendUntil(WritePlan(cfg, data[n..]), results)
          invariant before + SendUntil(WritePlan(cfg, data), old(results)) == log + rest
          invariant Succeeds(WritePlan(cfg, data), old(results)) == Succeeds(WritePlan(cfg, data[n..]), results)
          invariant ok == (n > 0)
        {
          var txsize := |data| - n;
          if txsize > xsize {
            txsize := xsize;
          }
          if mode.I2c? {
            txsize := 1;
          }
          WriteStep(cfg, data, n, txsize, results, log);
          TransferCarries(cfg, tx, data[n..n + txsize], WantedAfter(log));
          var buf, bufSize := BuildBlockBuffer(cfg, tx, data[n..n + txsize]);
          ok := RawWrite(buf[..bufSize]);
          n := n + txsize;
          if !ok {
            return;
          }
          rest := SendUntil(WritePlan(cfg, data[n..]), results);
        }
        WriteEnd(cfg, data, n, results, log);
        assert ok == (|data| > 0);
      }
    }

    // FastWrite, which is for the SPI modes only
    method FastWrite(data: Bytes) returns (ok: bool)
      requires Valid() && !mode.I2c? && !tx.bit
      modifies `log, `results, fastBuf
      ensures Valid() && WantedAfter(log) == WantedAfter(old(log))
      ensures if !open then !ok && log == old(log) else
        && log == old(log) + [Transfer(|data|)] + SendUntil(FastPlan(Cfg(), data), old(results))
        && ok == FastCode(Cfg(), data, old(results))
    {
      hide Carried, InStep, WantedAfter, Carries, Steady, SendUntil, Succeeds, WritePlan, FastPlan, FastBuffer,
        First, Rest,
        EncodeAll, BlockOps, Coherent, LinesKept, Harmless, Obeys;
      ok := false;
      if open {
        CfgObeys();
        var cfg, n: nat := Cfg(), 0;
        FastIsTheSame(cfg, data);
        PlansHarmless(cfg, data, 0);
        TransferKept(mode, log, started, pidle, pstart, pstop, |data|, WritePlan(cfg, data), results);
        Mark(Transfer(|data|));
        ghost var before := log;
        ghost var rest := SendUntil(WritePlan(cfg, data), results);
        assert data[0..] == data;
        while n < |data|
          invariant n <= |data| && Intact() && WantedAfter(log) == WantedAfter(old(log))
          invariant rest == SendUntil(WritePlan(cfg, data[n..]), results)
          invariant before + SendUntil(WritePlan(cfg, data), old(results)) == log + rest
          invariant Succeeds(WritePlan(cfg, data), old(results)) == Succeeds(WritePlan(cfg, data[n..]), results)
        {
          var txsize := |data| - n;
          if txsize > xsize {
            txsize := xsize;
          }
          WriteStep(cfg, data, n, txsize, results, log);
          TransferCarries(cfg, tx, data[n..n + txsize], WantedAfter(log));
          FastChunk(cfg, data[n..n + txsize]);
          var bufSize := FastBuildBlockBuffer(cfg, data[n..n + txsize], fastBuf);
          var sent := RawWrite(fastBuf[..bufSize]);
          if !sent {
            assert log + [] == log;
            return false;
          }
          n := n + txsize;
          rest := SendUntil(WritePlan(cfg, data[n..]), results);
        }
        WriteEnd(cfg, data, n, results, log);
        ok := true;
      }
    }

    // InternalRead, of a device that answers every request in full
    method InternalRead(size: nat)
      requires Valid()
      modifies `log, `results
      ensures Valid() && WantedAfter(log) == WantedAfter(old(log))
      ensures if !open then log == old(log) else
        log == old(log) + [Transfer(size)] + SendUntil(ReadPlan(Cfg(), size), old(results))
    {
      hide Carried, InStep, WantedAfter, Carries, Steady, SendUntil, ReadPlan, First, Rest, EncodeAll,
        BlockOps, SaneCommands,
        Zeros, LinesKept, Harmless, Obeys;
      if open {
        CfgObeys();
        var cfg, n: nat := Cfg(), 0;
        PlansHarmless(cfg, [], size);
        TransferKept(mode, log, started, pidle, pstart, pstop, size, ReadPlan(cfg, size), results);
        Mark(Transfer(size));
        ghost var before := log;
        ghost var rest := SendUntil(ReadPlan(cfg, size), results);
        while n < size
          invariant n <= size && Intact() && WantedAfter(log) == WantedAfter(old(log))
          invariant rest == SendUntil(ReadPlan(cfg, size - n), results)
          invariant before + SendUntil(ReadPlan(cfg, size), old(results)) == log + rest
        {
          var rxsize := size - n;
          if rxsize > xsize {
            rxsize := xsize;
          }
          ReadStep(cfg, size - n, results, log);
          TransferCarries(cfg, rx, Zeros(rxsize), WantedAfter(log));
          var data, dataSize := BuildBlockBuffer(cfg, rx, Zeros(rxsize));
          var ok := RawWrite(data[..dataSize]);
          n := n + rxsize;
          if !ok {
            return;
          }
          rest := SendUntil(ReadPlan(cfg, size - n), results);
        }
        ReadEnd(cfg, size - n, results, log);
      }
    }

    // WriteBits
    method WriteBits(bits: Byte, size: nat) returns (ok: bool)
      requires Valid()
      modifies `log, `results, `tx, `rx, `txrx
      ensures Valid() && WantedAfter(log) == WantedAfter(old(log))
      ensures if !open then !ok && log == old(log) else
        var cfg := BitMode(old(Cfg()));
        var data := BitBytes(LineOrder(endianess, LowBits(bits, Min(size, 8))));
        && log == old(log) + [Transfer(|data|)] + SendUntil(WritePlan(cfg, data), old(results))
          && ok == WriteCode(cfg, data, old(results))
        && tx == cfg.tx.(bit := false) && rx == cfg.rx.(bit := false) && txrx == cfg.txrx.(bit := false)
    {
      hide Carried, InStep, WantedAfter, Carries, Steady, SendUntil, Succeeds, WritePlan, BitBytes, LineOrder, LowBits,
        PinsAgree, LinesKept;
      var data := BitsToBytes(bits, Min(size, 8), endianess);
      EnableBitmode(true);
      ok := Write(data);
      EnableBitmode(false);
    }
  }

  function HighByte(g: seq<bool>): Byte
    requires |g| == 8
  {
    Nibble(Levels(g[0], g[1], g[2], g[3])) + 16 * Nibble(Levels(g[4], g[5], g[6], g[7]))
  }

  lemma PinDriven(port: Port, pin: nat, high: bool)
    requires pin < 4
    ensures port.gpio.Get(pin) == high ==> BitAt(PortByte(port), 4 + pin) == high
    ensures forall g: Levels :: port.gpio == g.Set(pin, high) ==> port.gpio.Get(pin) == high
  {
    hide PortByte, BitAt;
    PortBits(port);
  }

  // Bit k of the byte is the k-th of the high pins.
  lemma HighByteBits(g: seq<bool>)
    requires |g| == 8
    ensures forall k: nat :: k < 8 ==> BitAt(HighByte(g), k) == g[k]
  {
    hide HighByte, Nibble, BitAt;
    var n := Nibble(Levels(g[4], g[5], g[6], g[7]));
    HighByteUnfold(g);
    FourBits(HighByte(g), g[0], g[1], g[2], g[3], n);
    FourBits(n, g[4], g[5], g[6], g[7], 0);
    forall k: nat | k < 8 ensures BitAt(HighByte(g), k) == g[k] {
      if k >= 4 {
        assert BitAt(HighByte(g), 4 + (k - 4)) == BitAt(n, k - 4);
      }
    }
  }

  lemma HighByteUnfold(g: seq<bool>)
    requires |g| == 8
    ensures var n := Nibble(Levels(g[4], g[5], g[6], g[7]));
      && HighByte(g) == Flag(g[0]) + 2 * Flag(g[1]) + 4 * Flag(g[2]) + 8 * Flag(g[3]) + 16 * n
      && n == Flag(g[4]) + 2 * Flag(g[5]) + 4 * Flag(g[6]) + 8 * Flag(g[7])
  {}

  lemma SingleFits(op: Op, w: Wanted)
    requires Proper(op) && !op.SetLow? && !SetsClock(op)
    ensures Carries(Encode(op), w) && Steady(Encode(op))
  {
    hide Carries, Steady;
    SingleCarries(op, w);
    SingleSteady(op);
  }

  lemma LowSteady(port: Port, tris: Port)
    ensures Steady(LowBuffer(port, tris))
  {
    hide PortByte, Steady;
    SingleSteady(SetLow(PortByte(port), PortByte(tris)));
  }

  lemma PairFits(a: Byte, b: Byte, w: Wanted)
    requires SingleCode(a) && SingleCode(b) && a !in {TCK_X5, TCK_D5} && b !in {TCK_X5, TCK_D5}
    ensures Carries([a, b], w) && Steady([a, b])
  {
    PairDecoded(a, b);
  }

  lemma NoPorts(log: seq<Event>, tris: Port, results: seq<bool>)
    ensures log + [] == log && log + SendPorts([], tris, results) == log
    ensures PortsOk([], results) && After(results, 0) == results
  {}

  lemma NotOk(ports: seq<Port>, port: Port, tris: Port, results: seq<bool>)
    ensures !PortsOk(ports, results) ==> !PortsOk(ports + [port], results)
  {
    OneMorePort(ports, port, tris, results);
  }

  // ---- The loops of the transfers ----

  lemma WriteStep(cfg: Settings, data: Bytes, n: nat, txsize: nat, results: seq<bool>, log: seq<Event>)
    requires Sane(cfg) && n < |data| && txsize == Min(ChunkSize(cfg), |data| - n)
    ensures var buffer := EncodeAll(BlockOps(cfg, cfg.tx, data[n..n + txsize]));
      var sent := log + [Sent(buffer, First(results))];
      && log + SendUntil(WritePlan(cfg, data[n..]), results)
        == (if First(results) then sent + SendUntil(WritePlan(cfg, data[n + txsize..]), Rest(results)) else sent)
      && Succeeds(WritePlan(cfg, data[n..]), results)
        == (First(results) && Succeeds(WritePlan(cfg, data[n + txsize..]), Rest(results)))
      && sent + [] == sent
  {
    hide EncodeAll, WriteBlocks, First, Rest;
    var plan := WritePlan(cfg, data[n..]);
    assert data[n..][..txsize] == data[n..n + txsize] && data[n..][txsize..] == data[n + txsize..];
    assert plan[0] == EncodeAll(BlockOps(cfg, cfg.tx, data[n..n + txsize]))
      && plan[1..] == WritePlan(cfg, data[n + txsize..]);
    Send(plan, results, log);
  }

  lemma Send(plan: seq<Bytes>, results: seq<bool>, log: seq<Event>)
    requires plan != []
    ensures var sent := log + [Sent(plan[0], First(results))];
      && log + SendUntil(plan, results) == (if First(results) then sent + SendUntil(plan[1..], Rest(results)) else sent)
      && Succeeds(plan, results) == (First(results) && Succeeds(plan[1..], Rest(results)))
  {}

  lemma WriteEnd(cfg: Settings, data: Bytes, n: nat, results: seq<bool>, log: seq<Event>)
    requires Sane(cfg) && n <= |data|
    ensures n == |data| ==>
      && SendUntil(WritePlan(cfg, data[n..]), results) == []
      && Succeeds(WritePlan(cfg, data[n..]), results)
    ensures log + [] == log
  {}

  lemma FastChunk(cfg: Settings, data: Bytes)
    requires Sane(cfg) && !cfg.mode.I2c? && !cfg.tx.bit && 1 <= |data| <= cfg.xsize && 3 + |data| <= FAST_BUFFER
    ensures EncodeAll(BlockOps(cfg, cfg.tx, data)) == FastBuffer(cfg, data)
  {
    hide EncodeAll, WriteBlocks, FastBuffer;
    OneBlock(cfg, data);
  }

  lemma ReadStep(cfg: Settings, size: nat, results: seq<bool>, log: seq<Event>)
    requires Sane(cfg) && size > 0
    ensures var n := Min(cfg.xsize, size);
      var sent := log + [Sent(EncodeAll(BlockOps(cfg, cfg.rx, Zeros(n))), First(results))];
      && log + SendUntil(ReadPlan(cfg, size), results)
        == (if First(results) then sent + SendUntil(ReadPlan(cfg, size - n), Rest(results)) else sent)
      && sent + [] == sent
  {
    hide EncodeAll, BlockOps, First, Rest, Zeros;
    var n, plan := Min(cfg.xsize, size), ReadPlan(cfg, size);
    assert plan[0] == EncodeAll(BlockOps(cfg, cfg.rx, Zeros(n))) && plan[1..] == ReadPlan(cfg, size - n);
    Send(plan, results, log);
  }

  lemma ReadEnd(cfg: Settings, size: nat, results: seq<bool>, log: seq<Event>)
    requires Sane(cfg)
    ensures size == 0 ==> SendUntil(ReadPlan(cfg, size), results) == []
    ensures log + [] == log
  {}

  // ---- Bits ----

  function BitMode(cfg: Settings): Settings {
    cfg.(tx := cfg.tx.(bit := true), rx := cfg.rx.(bit := true), txrx := cfg.txrx.(bit := true))
  }

  // The order in which bits go out
  function LineOrder(lsb: bool, bits: seq<bool>): (line: seq<bool>)
    ensures |line| == |bits|
  {
    if lsb then bits else Reverse(bits)
  }

  lemma {:induction false} LowBitAt(bits: Byte, size: nat, i: nat)
    requires i < size
    ensures LowBits(bits, size)[i] == BitAt(bits, i)
  {
    if i > 0 {
      LowBitAt(bits / 2, size - 1, i - 1);
    }
  }

  // Which bit goes to, or comes from, a place in the array
  function Place(lsb: bool, size: nat, p: nat): nat
    requires p < size
  {
    if lsb then p else size - p - 1
  }

  // The array of bytes that WriteBits fills in
  method BitsToBytes(bits: Byte, size: nat, lsb: bool) returns (bytes: Bytes)
    requires size <= 8
    ensures bytes == BitBytes(LineOrder(lsb, LowBits(bits, size)))
  {
    hide LowBits, BitAt;
    var data := new Byte[8](_ => 0);
    for i := 0 to size
      invariant forall p :: 0 <= p < size ==>
        data[p] == if Place(lsb, size, p) < i && BitAt(bits, Place(lsb, size, p)) then 255 else 0
    {
      if BitAt(bits, i) {
        if lsb {
          data[i] := 255;
        } else {
          data[size - i - 1] := 255;
        }
      }
    }
    bytes := data[..size];
    LowSize(bits, size);
    forall k | 0 <= k < size ensures bytes[k] == BitBytes(LineOrder(lsb, LowBits(bits, size)))[k] {
      LowBitAt(bits, size, Place(lsb, size, k));
    }
  }

  lemma LowSize(bits: Byte, size: nat)
    ensures |LowBits(bits, size)| == size
  {}

  // A WriteBits that the device takes puts the low bits of its argument on the data line, lowest
  // first with the LSB option and highest first without it.
  lemma {:induction false} WriteBitsRecovered(cfg: Settings, lsb: bool, bits: Byte, size: nat)
    requires Sane(cfg) && size <= 8
    ensures var line := LineOrder(lsb, LowBits(bits, size));
      var r := Decode(Flatten(WritePlan(BitMode(cfg), BitBytes(line))));
      && r.Some? && |BitsOut(r.value)| == size
      && forall p :: 0 <= p < size ==> BitsOut(r.value)[p] == BitAt(bits, if lsb then p else size - 1 - p)
  {
    hide Decode, Flatten, WritePlan, BitsOut, BitBytes, LowBits, BitAt;
    LowSize(bits, size);
    BitsRecovered(BitMode(cfg), LineOrder(lsb, LowBits(bits, size)));
    forall p | 0 <= p < size
      ensures LineOrder(lsb, LowBits(bits, size))[p] == BitAt(bits, if lsb then p else size - 1 - p)
    {
      LowBitAt(bits, size, if lsb then p else size - 1 - p);
    }
  }

  // The bytes for the radio's driver, which opens SPI mode 0 at 6 MHz, highest bit first: the
  // clock, the set-up, the first GPIO pin driven high, Start, and a Write of the byte 1
  lemma DriverBytes(cfg: Settings)
    requires Sane(cfg) && cfg.mode.Spi0? && cfg.tx == ModeCommand(Spi0, false, true, false)
    ensures var pins := ModePins(Spi0);
      && ClockBuffers(6_000_000) == [[0x8B], [0x86, 0x00, 0x00]] && SetupBuffer(Spi0) == [0x97]
      && LowBuffer(pins.idle, DEFAULT_TRIS) == [0x80, 0x08, 0xFB] && SET_BITS_HIGH == 0x82
      && LowBuffer(pins.start.(gpio := pins.start.gpio.Set(0, true)), DEFAULT_TRIS) == [0x80, 0x10, 0xFB]
      && LowBuffer(pins.start, DEFAULT_TRIS) == [0x80, 0x00, 0xFB]
      && WritePlan(cfg, [0x01]) == [[0x11, 0x00, 0x00, 0x01]]
  {
    hide *;
    SixAndThirty();
    DriverPins();
    OneByteWritten(cfg);
  }

  lemma DriverPins()
    ensures var pins := ModePins(Spi0);
      && LowBuffer(pins.idle, DEFAULT_TRIS) == [0x80, 0x08, 0xFB] && SET_BITS_HIGH == 0x82
      && LowBuffer(pins.start.(gpio := pins.start.gpio.Set(0, true)), DEFAULT_TRIS) == [0x80, 0x10, 0xFB]
      && LowBuffer(pins.start, DEFAULT_TRIS) == [0x80, 0x00, 0xFB] && SetupBuffer(Spi0) == [0x97]
  {}

  lemma OneByteWritten(cfg: Settings)
    requires Sane(cfg) && cfg.mode.Spi0? && cfg.tx == ModeCommand(Spi0, false, true, false)
    ensures WritePlan(cfg, [0x01]) == [[0x11, 0x00, 0x00, 0x01]]
  {
    hide EncodeAll, WriteBlocks;
    var data: Bytes := [0x01];
    var op := Clock(cfg.tx, 1, data);
    assert data[..1] == data && data[1..] == [] && Min(ChunkSize(cfg), 1) == 1;
    SingleBlock(cfg, data);
    OneEncoded(op);
    assert Code(cfg.tx) == 0x11 && !cfg.tx.bit;
    assert Header(cfg.tx, 1) == [0x11, 0, 0] && Encode(op) == [0x11, 0, 0] + data;
    assert [0x11, 0, 0] + data == [0x11, 0, 0, 1];
    PlanOfOne(cfg, data);
  }

  lemma PlanOfOne(cfg: Settings, data: Bytes)
    requires Sane(cfg) && |data| == 1
    ensures WritePlan(cfg, data) == [EncodeAll(WriteBlocks(cfg, cfg.tx, data))]
  {
    hide EncodeAll, WriteBlocks;
    assert data[..1] == data && data[1..] == [];
    assert WritePlan(cfg, []) == [];
  }

  // On I2C the set-up turns three-phase clocking on; adaptive clocking is turned off in all modes.
  lemma SetupCommandsExact(mode: Mode)
    ensures var r := Decode(SetupBuffer(mode));
      && r.Some? && (Single(0x97) in r.value) && (Single(0x8C) in r.value <==> mode.I2c?)
      && forall i :: 0 <= i < |r.value| ==> r.value[i] in {Single(0x97), Single(0x8C)}
  {
    hide Decode;
    PairDecoded(DISABLE_ADAPTIVE_CLOCK, ENABLE_3_PHASE_CLOCK);
    OneEncoded(Single(DISABLE_ADAPTIVE_CLOCK));
    DecodeEncoded([Single(DISABLE_ADAPTIVE_CLOCK)]);
    var both := [Single(DISABLE_ADAPTIVE_CLOCK)] + [Single(ENABLE_3_PHASE_CLOCK)];
    assert both[0] == Single(0x97) && both[1] == Single(0x8C);
    var one := [Single(DISABLE_ADAPTIVE_CLOCK)];
    assert one[0] == Single(0x97);
  }
}
