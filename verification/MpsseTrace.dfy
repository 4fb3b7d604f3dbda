/**
  What a device context of libmpsse does, seen from outside: its calls, the buffers it hands to
  the device, the pins it sets. src/libmpsse/mpsse.c and src/libmpsse/support.c.
*/
module MpsseTrace {
  import opened Common
  import opened MpsseClock
  import opened MpsseStream

  // ---- Traces ----

  // What happens to the pins and on the bus: SetMode sets the pins to their defaults and the bit
  // order, a low GPIO pin is written, SetCSIdle sets the idle level of chip select, Start and Stop
  // are called, so much data is about to be transferred, a buffer is handed to the device
  datatype Event =
    | Reset(lsb: bool)
    | Level(pin: nat, high: bool)
    | Idles(high: bool)
    | Begun
    | Ended
    | Transfer(size: nat)
    | Sent(buffer: Bytes, ok: bool)

  const ALL_LOW := Levels(false, false, false, false)

  // What the calls so far have asked for: the levels of the low GPIO pins, and since the first
  // SetMode the directions of the pins and the bit order
  datatype Wanted = Wanted(levels: Levels, ready: bool, lsb: bool)

  function WantedAfter(log: seq<Event>): Wanted {
    if log == [] then Wanted(ALL_LOW, false, false) else
    var before := WantedAfter(log[..|log| - 1]);
    match log[|log| - 1]
    case Reset(lsb) => Wanted(ALL_LOW, true, lsb)
    case Level(pin, high) => if pin < 4 then before.(levels := before.levels.Set(pin, high)) else before
    case _ => before
  }

  // The GPIO pins are bits 4 to 7.
  predicate ShowsLevels(value: Byte, g: Levels) {
    forall k: nat :: k < 4 ==> BitAt(value, 4 + k) == g.Get(k)
  }

  // Clock, chip select and the GPIO pins are outputs, and data in is an input. Data out may be
  // either: on I2C it is released to let the other side drive the line.
  predicate Outputs(direction: Byte) {
    && BitAt(direction, 0) && !BitAt(direction, 2) && BitAt(direction, 3)
    && forall k: nat :: k < 4 ==> OutputPin(direction, k)
  }

  predicate OutputPin(direction: Byte, k: nat) {
    BitAt(direction, 4 + k)
  }

  // Every operation that sets the low pins drives the GPIO pins to the levels wanted.
  predicate OpsCarry(ops: seq<Op>, w: Wanted) {
    forall i :: 0 <= i < |ops| && ops[i].SetLow? ==> OpCarries(ops[i], w)
  }

  predicate OpCarries(op: Op, w: Wanted)
    requires op.SetLow?
  {
    ShowsLevels(op.value, w.levels) && (w.ready ==> Outputs(op.direction))
  }

  // The chip can decode the buffer, and finds these levels in it.
  predicate Carries(buffer: Bytes, w: Wanted) {
    var r := Decode(buffer);
    r.Some? && OpsCarry(r.value, w)
  }

  predicate Carried(log: seq<Event>) {
    log == [] ||
    (Carried(log[..|log| - 1]) && (log[|log| - 1].Sent? ==>
      Carries(log[|log| - 1].buffer, WantedAfter(log[..|log| - 1]))))
  }

  lemma Append(log: seq<Event>, e: Event)
    requires Carried(log) && (e.Sent? ==> Carries(e.buffer, WantedAfter(log)))
    ensures Carried(log + [e])
    ensures !e.Reset? && !e.Level? ==> WantedAfter(log + [e]) == WantedAfter(log)
    ensures e.Reset? ==> WantedAfter(log + [e]) == Wanted(ALL_LOW, true, e.lsb)
    ensures e.Level? && e.pin < 4 ==>
      WantedAfter(log + [e]) == WantedAfter(log).(levels := WantedAfter(log).levels.Set(e.pin, e.high))
  {}

  lemma EncodedCarries(ops: seq<Op>, w: Wanted)
    requires AllProper(ops) && OpsCarry(ops, w)
    ensures Carries(EncodeAll(ops), w)
  {
    DecodeEncoded(ops);
  }

  // In a trace that the context below can have, every operation in every buffer the device was
  // ever handed that sets the low pins drives each GPIO pin to the level the calls before it
  // have asked for, and after the first SetMode makes it an output.
  lemma {:induction false} LevelsOnTheWire(log: seq<Event>, i: nat)
    requires Carried(log) && i < |log| && log[i].Sent?
    ensures var r, w := Decode(log[i].buffer), WantedAfter(log[..i]);
      && r.Some?
      && forall n, k: nat :: 0 <= n < |r.value| && r.value[n].SetLow? && k < 4 ==>
        && BitAt(r.value[n].value, 4 + k) == w.levels.Get(k)
        && (w.ready ==> OutputPin(r.value[n].direction, k))
  {
    hide Decode, BitAt, OutputPin;
    if i < |log| - 1 {
      LevelsOnTheWire(log[..|log| - 1], i);
      assert log[..|log| - 1][..i] == log[..i];
    }
  }

  // The levels are those of the last write to each pin since the last SetMode.
  lemma {:induction false} LastWriteCounts(log: seq<Event>, i: nat, pin: nat)
    requires i < |log| && pin < 4
    requires forall j :: i < j < |log| ==> !log[j].Reset? && !(log[j].Level? && log[j].pin == pin)
    ensures log[i].Reset? ==> !WantedAfter(log).levels.Get(pin)
    ensures log[i].Level? && log[i].pin == pin ==> WantedAfter(log).levels.Get(pin) == log[i].high
  {
    if i < |log| - 1 {
      LastWriteCounts(log[..|log| - 1], i, pin);
    }
  }

  // The bit order is that of the last SetMode.
  lemma {:induction false} LastModeCounts(log: seq<Event>, i: nat)
    requires i < |log| && log[i].Reset? && forall j :: i < j < |log| ==> !log[j].Reset?
    ensures WantedAfter(log).ready && WantedAfter(log).lsb == log[i].lsb
  {
    if i < |log| - 1 {
      LastModeCounts(log[..|log| - 1], i);
    }
  }

  // ---- The device's answers ----

  // Whether raw_write succeeds is the device's choice; the answers run out to failure.
  function First(results: seq<bool>): bool { results != [] && results[0] }
  function Rest(results: seq<bool>): seq<bool> { if results == [] then [] else results[1..] }

  // Buffers handed over one by one, up to the first that fails
  function SendUntil(buffers: seq<Bytes>, results: seq<bool>): seq<Event> {
    if buffers == [] then [] else
    [Sent(buffers[0], First(results))] + if First(results) then SendUntil(buffers[1..], Rest(results)) else []
  }

  // Whether all of them are
  predicate Succeeds(buffers: seq<Bytes>, results: seq<bool>) {
    buffers == [] || (First(results) && Succeeds(buffers[1..], Rest(results)))
  }

  // The device took every buffer.
  predicate AllTaken(log: seq<Event>) {
    forall i :: 0 <= i < |log| && log[i].Sent? ==> log[i].ok
  }

  // ---- Pins of the modes ----

  datatype Pins = Pins(idle: Port, start: Port, stop: Port)

  const DEFAULT_PORT := Port(true, false, false, true, ALL_LOW)
  const DEFAULT_TRIS := Port(true, true, false, true, Levels(true, true, true, true))
  const NO_PORT := Port(false, false, false, false, ALL_LOW)

  function ModePins(mode: Mode): Pins {
    var idle, start, stop := DEFAULT_PORT, DEFAULT_PORT.(cs := false), DEFAULT_PORT;
    match mode
    case Spi0 => Pins(idle.(sk := false), start.(sk := false), stop.(sk := false))
    case Spi3 => Pins(idle.(sk := true), start.(sk := true), stop.(sk := false))
    case Spi1 => Pins(idle.(sk := false), start.(sk := false), stop.(sk := true))
    case Spi2 => Pins(idle.(sk := true), start.(sk := true), stop.(sk := true))
    case I2c => Pins(idle.(do := true, di := true), start.(do := false, di := false), stop.(do := false, di := false))
    case Gpio => Pins(idle, start, stop)
  }

  // In SPI modes 0 and 3, and on I2C when transmitting only, data goes out on the falling clock
  // edge; in SPI modes 1 and 2 it is read there.
  function ModeCommand(mode: Mode, lsb: bool, write: bool, read: bool): Command {
    var outFalls := write && (mode in {Spi0, Spi3} || (mode.I2c? && !read));
    var inFalls := read && mode in {Spi1, Spi2};
    Command(write, read, lsb, outFalls, inFalls, false)
  }

  function SetupBuffer(mode: Mode): Bytes {
    if mode.I2c? then [DISABLE_ADAPTIVE_CLOCK, ENABLE_3_PHASE_CLOCK] else [DISABLE_ADAPTIVE_CLOCK]
  }

  // The set-up commands, and once they got through the idle pins and all high pins as low outputs
  function SetupEvents(mode: Mode, idle: Port, tris: Port, results: seq<bool>): seq<Event> {
    [Sent(SetupBuffer(mode), First(results))] +
    if First(results) then
      [Sent(LowBuffer(idle, tris), First(Rest(results))), Sent([SET_BITS_HIGH, 0, 0xFF], First(Rest(Rest(results))))]
    else []
  }

  // Whether the low pins got through is not looked at.
  predicate SetupOk(results: seq<bool>) {
    First(results) && First(Rest(Rest(results)))
  }

  lemma SetupUnfold(log: seq<Event>, mode: Mode, idle: Port, tris: Port, results: seq<bool>)
    ensures var setup := log + [Sent(SetupBuffer(mode), First(results))];
      log + SetupEvents(mode, idle, tris, results) ==
      if First(results) then
        setup + [Sent(LowBuffer(idle, tris), First(Rest(results)))]
          + [Sent([SET_BITS_HIGH, 0, 0xFF], First(Rest(Rest(results))))]
      else setup
    ensures SetupOk(results) == (First(results) && First(Rest(Rest(results))))
  {}

  // The ports Start sets, one after the other
  function StartPorts(mode: Mode, started: bool, idle: Port, start: Port): seq<Port> {
    (if mode.I2c? && started then [idle.(sk := false), idle] else [])
    + [start]
    + if mode.Spi3? then [start.(sk := false)] else if mode.Spi1? then [start.(sk := true)] else []
  }

  // The ports Stop sets before it restores the idle state
  function StopPorts(mode: Mode, idle: Port, stop: Port): seq<Port> {
    (if mode.I2c? then [idle.(do := false, sk := false)] else []) + [stop]
  }

  // ---- What the pins mean on the bus ----

  // The clock idles high in SPI modes 2 and 3; the second clock edge samples in modes 1 and 3.
  predicate ClockPolarity(mode: Mode) { mode.Spi2? || mode.Spi3? }
  predicate ClockPhase(mode: Mode) { mode.Spi1? || mode.Spi3? }

  // The four SPI modes as clock polarity and phase define them: data is sampled on the falling
  // edge if they differ and goes out on the other edge, and the chip is selected by a low pin.
  lemma SpiModes(mode: Mode, lsb: bool)
    requires mode in {Spi0, Spi1, Spi2, Spi3}
    ensures var pins := ModePins(mode);
      pins.idle.sk == ClockPolarity(mode) && pins.idle.cs && pins.stop.cs && !pins.start.cs
    ensures ModeCommand(mode, lsb, false, true).readNeg == (ClockPolarity(mode) != ClockPhase(mode))
    ensures ModeCommand(mode, lsb, true, false).writeNeg == (ClockPolarity(mode) == ClockPhase(mode))
    ensures var both := ModeCommand(mode, lsb, true, true);
      both.readNeg == ModeCommand(mode, lsb, false, true).readNeg
        && both.writeNeg == ModeCommand(mode, lsb, true, false).writeNeg
  {}

  // On I2C data goes out on the falling clock edge and is read on the rising one.
  lemma I2cEdges(lsb: bool)
    ensures ModeCommand(I2c, lsb, true, false).writeNeg && !ModeCommand(I2c, lsb, false, true).readNeg
  {}

  function LowBuffer(port: Port, tris: Port): Bytes {
    [SET_BITS_LOW, PortByte(port), PortByte(tris)]
  }

  function SendPorts(ports: seq<Port>, tris: Port, results: seq<bool>): seq<Event> {
    if ports == [] then [] else
    [Sent(LowBuffer(ports[0], tris), First(results))] + SendPorts(ports[1..], tris, Rest(results))
  }

  predicate PortsOk(ports: seq<Port>, results: seq<bool>) {
    ports == [] || (First(results) && PortsOk(ports[1..], Rest(results)))
  }

  // The answers that are left after n buffers
  function After(results: seq<bool>, n: nat): seq<bool> {
    if n == 0 then results else After(Rest(results), n - 1)
  }

  lemma {:induction false} OneMorePort(ports: seq<Port>, port: Port, tris: Port, results: seq<bool>)
    ensures var left := After(results, |ports|);
      && SendPorts(ports + [port], tris, results) == SendPorts(ports, tris, results)
        + [Sent(LowBuffer(port, tris), First(left))]
      && PortsOk(ports + [port], results) == (PortsOk(ports, results) && First(left))
      && After(results, |ports + [port]|) == Rest(left)
  {
    hide LowBuffer, First, Rest;
    if ports == [] {
      assert [] + [port] == [port] && [port][1..] == [];
    } else {
      OneMorePort(ports[1..], port, tris, Rest(results));
      assert (ports + [port])[1..] == ports[1..] + [port] && (ports + [port])[0] == ports[0];
    }
  }

  // A port that shows the levels wanted, and the default directions
  lemma PortCarries(port: Port, tris: Port, w: Wanted)
    requires port.gpio == w.levels && (w.ready ==> tris.(do := true) == DEFAULT_TRIS)
    ensures OpCarries(SetLow(PortByte(port), PortByte(tris)), w)
  {
    hide PortByte, BitAt;
    PortBits(port);
    PortBits(tris);
    forall k: nat | k < 4 ensures OutputPin(PortByte(tris), k) == tris.gpio.Get(k) {
      assert BitAt(PortByte(tris), 4 + k) == tris.gpio.Get(k);
    }
  }

  lemma LowBufferCarries(port: Port, tris: Port, w: Wanted)
    requires port.gpio == w.levels && (w.ready ==> tris.(do := true) == DEFAULT_TRIS)
    ensures Carries(LowBuffer(port, tris), w)
  {
    hide PortByte, OpCarries;
    var op := SetLow(PortByte(port), PortByte(tris));
    PortCarries(port, tris, w);
    OneEncoded(op);
    EncodedCarries([op], w);
  }

  lemma SingleCarries(op: Op, w: Wanted)
    requires Proper(op) && !op.SetLow?
    ensures Carries(Encode(op), w)
  {
    OneEncoded(op);
    EncodedCarries([op], w);
  }

  lemma PairDecoded(a: Byte, b: Byte)
    requires SingleCode(a) && SingleCode(b)
    ensures Decode([a, b]) == Some([Single(a)] + [Single(b)])
  {
    EncodeConcat([Single(a)], [Single(b)]);
    OneEncoded(Single(a));
    OneEncoded(Single(b));
    assert [a] + [b] == [a, b];
    DecodeEncoded([Single(a)] + [Single(b)]);
  }

  function ClockBuffers(freq: nat): seq<Bytes> {
    var div := DivisorFor(freq);
    [[if freq > SIX_MHZ then TCK_X5 else TCK_D5], [TCK_DIVISOR, div % 256, div / 256]]
  }

  lemma TwoSent(buffers: seq<Bytes>, log: seq<Event>, results: seq<bool>)
    requires |buffers| == 2
    ensures log + SendUntil(buffers, results) ==
      if First(results) then log + [Sent(buffers[0], true)] + [Sent(buffers[1], First(Rest(results)))]
      else log + [Sent(buffers[0], false)]
    ensures Succeeds(buffers, results) == (First(results) && First(Rest(results)))
  {
    hide First, Rest;
    assert buffers[1..] == [buffers[1]] && buffers[1..][1..] == [];
    var second := [Sent(buffers[1], First(Rest(results)))];
    assert SendUntil(buffers[1..], Rest(results)) == second;
    assert log + ([Sent(buffers[0], true)] + second) == log + [Sent(buffers[0], true)] + second;
    assert Succeeds(buffers[1..], Rest(results)) == First(Rest(results));
  }

  lemma StartSequence(mode: Mode, started: bool, idle: Port, start: Port)
    ensures StartPorts(mode, started, idle, start) ==
      if mode.I2c? && started then [] + [idle.(sk := false)] + [idle] + [start]
      else if mode.Spi3? then [] + [start] + [start.(sk := false)]
      else if mode.Spi1? then [] + [start] + [start.(sk := true)]
      else [] + [start]
  {}

  lemma StopSequence(mode: Mode, idle: Port, stop: Port)
    ensures StopPorts(mode, idle, stop) ==
      if mode.I2c? then [] + [idle.(do := false, sk := false)] + [stop] else [] + [stop]
  {}
}
