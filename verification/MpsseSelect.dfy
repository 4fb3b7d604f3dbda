/**
  Chip select and clock of an SPI context as the slave sees them over whole runs: when it is
  selected, and which sampling edges the pin settings of Start and Stop make besides those of the
  data. src/libmpsse/mpsse.c and src/libmpsse/support.c.
*/
module MpsseSelect {
  import opened Common
  import opened MpsseBus
  import opened MpsseClock
  import opened MpsseStream
  import opened MpsseTrace

  // ---- The slave ----

  datatype Wire = Wire(sk: bool, cs: bool)

  // Clock and chip select as last set, the level at which chip select is idle, and the number of
  // sampling edges that setting the pins has made while the slave was selected
  datatype Slave = Slave(wire: Option<Wire>, idleHigh: bool, strays: nat)

  predicate Spi(mode: Mode) {
    mode in {Spi0, Spi1, Spi2, Spi3}
  }

  // Data is sampled on the rising edge in modes 0 and 3.
  predicate Rising(mode: Mode) {
    ClockPolarity(mode) == ClockPhase(mode)
  }

  predicate Samples(mode: Mode, a: Wire, b: Wire, idleHigh: bool) {
    a.sk != b.sk && b.sk == Rising(mode) && a.cs == b.cs == !idleHigh
  }

  function Moved(mode: Mode, s: Slave, w: Wire): Slave {
    var stray := s.wire.Some? && Samples(mode, s.wire.value, w, s.idleHigh);
    Slave(Some(w), s.idleHigh, s.strays + if stray then 1 else 0)
  }

  function WireAt(value: Byte): Wire {
    Wire(BitAt(value, 0), BitAt(value, 3))
  }

  function MovedBy(mode: Mode, s: Slave, ops: seq<Op>): Slave
    decreases |ops|
  {
    if ops == [] then s
    else MovedBy(mode, if ops[0].SetLow? then Moved(mode, s, WireAt(ops[0].value)) else s, ops[1..])
  }

  function MovedIn(mode: Mode, s: Slave, buffer: Bytes): Slave {
    match Decode(buffer)
    case None => s
    case Some(ops) => MovedBy(mode, s, ops)
  }

  // What the buffers that the device took have shown the slave
  function SlaveAfter(mode: Mode, log: seq<Event>): Slave {
    if log == [] then Slave(None, true, 0) else
    var s := SlaveAfter(mode, log[..|log| - 1]);
    match log[|log| - 1]
    case Reset(_) => s.(idleHigh := true)
    case Idles(high) => s.(idleHigh := high)
    case Sent(buffer, ok) => if ok then MovedIn(mode, s, buffer) else s
    case _ => s
  }

  // ---- What the calls should show it ----

  function IdleHigh(log: seq<Event>): bool {
    if log == [] then true else
    match log[|log| - 1]
    case Reset(_) => true
    case Idles(high) => high
    case _ => IdleHigh(log[..|log| - 1])
  }

  // SetMode and Stop leave the slave deselected with the clock idle. Start selects it, and leaves
  // the clock where its next edge is not the sampling one. Writing a low GPIO pin selects it too.
  function WireBy(mode: Mode, log: seq<Event>): Option<Wire> {
    if log == [] then None else
    var before := log[..|log| - 1];
    match log[|log| - 1]
    case Reset(_) => Some(Wire(ClockPolarity(mode), true))
    case Begun => Some(Wire(!Rising(mode), !IdleHigh(before)))
    case Ended => Some(Wire(ClockPolarity(mode), IdleHigh(before)))
    case Level(_, _) => Some(Wire(ClockPolarity(mode), !IdleHigh(before)))
    case _ => WireBy(mode, before)
  }

  // The idle level of chip select at the Start that the slave is still selected by
  function StartedWith(log: seq<Event>): Option<bool> {
    if log == [] then None else
    var before := log[..|log| - 1];
    match log[|log| - 1]
    case Begun => Some(IdleHigh(before))
    case Reset(_) => None
    case Ended => None
    case Level(_, _) => None
    case _ => StartedWith(before)
  }

  // A Start of a selected slave makes a sampling edge in modes 1 and 3, since it takes the clock
  // back to where it is idle. Nothing else does.
  function StraysBy(mode: Mode, log: seq<Event>): nat {
    if log == [] then 0 else
    var before, e := log[..|log| - 1], log[|log| - 1];
    StraysBy(mode, before) +
    if e.Begun? && mode in {Spi1, Spi3} && StartedWith(before) == Some(IdleHigh(before)) then 1 else 0
  }

  // The pin states of an SPI mode with chip select idle at this level
  predicate SpiPins(mode: Mode, high: bool, idle: Port, start: Port, stop: Port) {
    && idle.sk == start.sk == ClockPolarity(mode) && stop.sk == !Rising(mode)
    && idle.cs == stop.cs == high && start.cs == !high
  }

  predicate SpiSettled(mode: Mode, log: seq<Event>, started: bool, idle: Port, start: Port, stop: Port) {
    && SpiPins(mode, IdleHigh(log), idle, start, stop) && StartedAt(log) == started
    && (StartedWith(log).Some? ==> started) && Consistent(mode, log)
    && (AllTaken(log) ==> SlaveAfter(mode, log) == Slave(WireBy(mode, log), IdleHigh(log), StraysBy(mode, log)))
  }

  // The clock is off its idle level only behind a Start, and chip select is as at that Start.
  predicate Consistent(mode: Mode, log: seq<Event>) {
    && WireBy(mode, log).Some?
    && match StartedWith(log)
       case None => WireBy(mode, log).value.sk == ClockPolarity(mode)
       case Some(high) => WireBy(mode, log).value == Wire(!Rising(mode), !high)
  }

  // ---- Appending to the log ----

  lemma Marked(mode: Mode, log: seq<Event>, e: Event)
    requires !e.Sent?
    ensures var l := log + [e];
      && SlaveAfter(mode, l) == (
        if e.Reset? then SlaveAfter(mode, log).(idleHigh := true)
        else if e.Idles? then SlaveAfter(mode, log).(idleHigh := e.high) else SlaveAfter(mode, log))
      && IdleHigh(l) == (if e.Reset? then true else if e.Idles? then e.high else IdleHigh(log))
      && WireBy(mode, l) == (
        if e.Reset? then Some(Wire(ClockPolarity(mode), true))
        else if e.Begun? then Some(Wire(!Rising(mode), !IdleHigh(log)))
        else if e.Ended? then Some(Wire(ClockPolarity(mode), IdleHigh(log)))
        else if e.Level? then Some(Wire(ClockPolarity(mode), !IdleHigh(log))) else WireBy(mode, log))
      && StartedWith(l) == (
        if e.Begun? then Some(IdleHigh(log)) else if e.Reset? || e.Ended? || e.Level? then None else StartedWith(log))
      && StraysBy(mode, l) == StraysBy(mode, log)
        + (if e.Begun? && mode in {Spi1, Spi3} && StartedWith(log) == Some(IdleHigh(log)) then 1 else 0)
  {
    hide ClockPolarity, Rising;
    assert (log + [e])[..|log + [e]| - 1] == log && (log + [e])[|log + [e]| - 1] == e;
  }

  lemma OneSent(mode: Mode, log: seq<Event>, buffer: Bytes, ok: bool)
    ensures var l := log + [Sent(buffer, ok)];
      && SlaveAfter(mode, l) == (if ok then MovedIn(mode, SlaveAfter(mode, log), buffer) else SlaveAfter(mode, log))
      && IdleHigh(l) == IdleHigh(log) && WireBy(mode, l) == WireBy(mode, log)
      && StartedWith(l) == StartedWith(log) && StraysBy(mode, l) == StraysBy(mode, log)
  {
    hide MovedIn, ClockPolarity, Rising;
    var l := log + [Sent(buffer, ok)];
    assert l[..|l| - 1] == log && l[|l| - 1] == Sent(buffer, ok);
  }

  function WireOf(p: Port): Wire {
    Wire(p.sk, p.cs)
  }

  lemma LowBufferMoves(mode: Mode, s: Slave, port: Port, tris: Port)
    ensures MovedIn(mode, s, LowBuffer(port, tris)) == Moved(mode, s, WireOf(port))
  {
    hide PortByte, BitAt, Moved;
    PortBits(port);
    var op := SetLow(PortByte(port), PortByte(tris));
    OneEncoded(op);
    DecodeEncoded([op]);
    assert [op][1..] == [] && WireAt(op.value) == WireOf(port);
    assert MovedBy(mode, Moved(mode, s, WireOf(port)), []) == Moved(mode, s, WireOf(port));
  }

  function MovedThrough(mode: Mode, s: Slave, ports: seq<Port>): Slave
    decreases |ports|
  {
    if ports == [] then s else MovedThrough(mode, Moved(mode, s, WireOf(ports[0])), ports[1..])
  }

  lemma {:induction false} PortsMove(mode: Mode, log: seq<Event>, ports: seq<Port>, tris: Port, results: seq<bool>)
    ensures var l := log + SendPorts(ports, tris, results);
      && (PortsOk(ports, results) ==> SlaveAfter(mode, l) == MovedThrough(mode, SlaveAfter(mode, log), ports))
      && IdleHigh(l) == IdleHigh(log) && WireBy(mode, l) == WireBy(mode, log)
      && StartedWith(l) == StartedWith(log) && StraysBy(mode, l) == StraysBy(mode, log)
    decreases |ports|
  {
    hide LowBuffer, Moved, SlaveAfter, IdleHigh, WireBy, StartedWith, StraysBy, MovedIn, First, Rest;
    if ports == [] {
      NoPortsSent(tris, results);
      assert log + [] == log;
    } else {
      var e := Sent(LowBuffer(ports[0], tris), First(results));
      var more := SendPorts(ports[1..], tris, Rest(results));
      assert log + ([e] + more) == log + [e] + more;
      OneSent(mode, log, e.buffer, e.ok);
      LowBufferMoves(mode, SlaveAfter(mode, log), ports[0], tris);
      PortsMove(mode, log + [e], ports[1..], tris, Rest(results));
    }
  }

  // A buffer that does not set the low pins
  predicate Silent(buffer: Bytes) {
    var r := Decode(buffer);
    r.Some? && forall i :: 0 <= i < |r.value| ==> !r.value[i].SetLow?
  }

  lemma {:induction false} SilentOps(mode: Mode, s: Slave, ops: seq<Op>)
    requires forall i :: 0 <= i < |ops| ==> !ops[i].SetLow?
    ensures MovedBy(mode, s, ops) == s
    decreases |ops|
  {
    if ops != [] {
      SilentOps(mode, s, ops[1..]);
    }
  }

  lemma SilentMoves(mode: Mode, s: Slave, buffer: Bytes)
    requires Silent(buffer)
    ensures MovedIn(mode, s, buffer) == s
  {
    SilentOps(mode, s, Decode(buffer).value);
  }

  predicate AllSilent(buffers: seq<Bytes>) {
    forall i :: 0 <= i < |buffers| ==> Silent(buffers[i])
  }

  lemma {:induction false} SilentSent(mode: Mode, log: seq<Event>, buffers: seq<Bytes>, results: seq<bool>)
    requires AllSilent(buffers)
    ensures var l := log + SendUntil(buffers, results);
      && SlaveAfter(mode, l) == SlaveAfter(mode, log) && OnlySent(SendUntil(buffers, results))
      && IdleHigh(l) == IdleHigh(log) && WireBy(mode, l) == WireBy(mode, log)
      && StartedWith(l) == StartedWith(log) && StraysBy(mode, l) == StraysBy(mode, log)
    decreases |buffers|
  {
    hide Silent, SlaveAfter, IdleHigh, WireBy, StartedWith, StraysBy, MovedIn, First, Rest;
    if buffers == [] {
      assert log + [] == log;
    } else {
      var e := Sent(buffers[0], First(results));
      OneSent(mode, log, e.buffer, e.ok);
      SilentMoves(mode, SlaveAfter(mode, log), buffers[0]);
      if First(results) {
        SilentSent(mode, log + [e], buffers[1..], Rest(results));
        var more := SendUntil(buffers[1..], Rest(results));
        assert log + ([e] + more) == log + [e] + more;
      } else {
        assert [e] + [] == [e];
      }
    }
  }

  // ---- What every call keeps ----

  lemma SpiTransferKeeps(mode: Mode, log: seq<Event>, started: bool, idle: Port, start: Port, stop: Port,
                         size: nat, buffers: seq<Bytes>, results: seq<bool>)
    requires SpiSettled(mode, log, started, idle, start, stop) && AllSilent(buffers)
    ensures SpiSettled(mode, log + [Transfer(size)] + SendUntil(buffers, results), started, idle, start, stop)
  {
    hide *;
    SpiUnfold(mode, log, started, idle, start, stop);
    var l := log + [Transfer(size)];
    Mark(log, Transfer(size));
    Marked(mode, log, Transfer(size));
    SilentSent(mode, l, buffers, results);
    Buffers(l, SendUntil(buffers, results));
    SpiUnfold(mode, l + SendUntil(buffers, results), started, idle, start, stop);
  }

  lemma SpiUnfold(mode: Mode, log: seq<Event>, started: bool, idle: Port, start: Port, stop: Port)
    ensures SpiSettled(mode, log, started, idle, start, stop) <==>
      && SpiPins(mode, IdleHigh(log), idle, start, stop) && StartedAt(log) == started
      && (StartedWith(log).Some? ==> started)
      && WireBy(mode, log).Some?
      && (StartedWith(log).None? ==> WireBy(mode, log).value.sk == ClockPolarity(mode))
      && (StartedWith(log).Some? ==> WireBy(mode, log).value == Wire(!Rising(mode), !StartedWith(log).value))
      && (AllTaken(log) ==> SlaveAfter(mode, log) == Slave(WireBy(mode, log), IdleHigh(log), StraysBy(mode, log)))
  {
    hide IdleHigh, StartedAt, StartedWith, WireBy, AllTaken, SlaveAfter, StraysBy, ClockPolarity, ClockPhase;
  }

  // What the pin states of Start do to the slave: they select it, and make a sampling edge only
  // from a selected slave whose clock is not where it is idle.
  lemma SpiStarts(mode: Mode, s: Slave, started: bool, idle: Port, start: Port, stop: Port)
    requires Spi(mode) && s.wire.Some? && SpiPins(mode, s.idleHigh, idle, start, stop)
    ensures var stray := mode in {Spi1, Spi3} && s.wire.value == Wire(!Rising(mode), !s.idleHigh);
      MovedThrough(mode, s, StartPorts(mode, started, idle, start))
        == Slave(Some(Wire(!Rising(mode), !s.idleHigh)), s.idleHigh, s.strays + if stray then 1 else 0)
  {
    hide StartPorts;
    StartSequence(mode, started, idle, start);
    assert [] + [start] == [start];
    if mode.Spi3? {
      TwoMoves(mode, s, start, start.(sk := false));
    } else if mode.Spi1? {
      TwoMoves(mode, s, start, start.(sk := true));
    } else {
      OneMove(mode, s, start);
    }
  }

  // What those of Stop do: they deselect it, and make no sampling edge.
  lemma SpiStops(mode: Mode, s: Slave, idle: Port, start: Port, stop: Port)
    requires Spi(mode) && s.wire.Some? && SpiPins(mode, s.idleHigh, idle, start, stop)
    ensures MovedThrough(mode, s, StopPorts(mode, idle, stop) + [idle])
      == Slave(Some(Wire(ClockPolarity(mode), s.idleHigh)), s.idleHigh, s.strays)
  {
    hide StopPorts;
    StopSequence(mode, idle, stop);
    assert [] + [stop] == [stop];
    TwoMoves(mode, s, stop, idle);
  }

  lemma OneMove(mode: Mode, s: Slave, a: Port)
    ensures MovedThrough(mode, s, [a]) == Moved(mode, s, WireOf(a))
  {
    assert [a][1..] == [];
  }

  lemma TwoMoves(mode: Mode, s: Slave, a: Port, b: Port)
    ensures MovedThrough(mode, s, [a] + [b]) == Moved(mode, Moved(mode, s, WireOf(a)), WireOf(b))
  {
    hide Moved;
    assert ([a] + [b])[1..] == [b] && [b][1..] == [];
    OneMove(mode, Moved(mode, s, WireOf(a)), b);
  }

  lemma SpiStartKeeps(mode: Mode, log: seq<Event>, started: bool, idle: Port, start: Port, stop: Port, tris: Port,
                      results: seq<bool>)
    requires Spi(mode) && SpiSettled(mode, log, started, idle, start, stop)
    ensures SpiSettled(mode, log + [Begun] + SendPorts(StartPorts(mode, started, idle, start), tris, results), true,
      idle, start, stop)
  {
    hide *;
    var ports, l := StartPorts(mode, started, idle, start), log + [Begun];
    SpiUnfold(mode, log, started, idle, start, stop);
    Mark(log, Begun);
    Marked(mode, log, Begun);
    PortsSent(ports, tris, results);
    Buffers(l, SendPorts(ports, tris, results));
    PortsMove(mode, l, ports, tris, results);
    if AllTaken(log) {
      SpiStarts(mode, SlaveAfter(mode, log), started, idle, start, stop);
    }
    Edges(mode);
    SpiUnfold(mode, l + SendPorts(ports, tris, results), true, idle, start, stop);
  }

  // In modes 1 and 3 a transfer does not leave the clock where it is idle.
  lemma Edges(mode: Mode)
    requires Spi(mode)
    ensures ClockPolarity(mode) != Rising(mode) <==> mode in {Spi0, Spi2}
  {}

  lemma SpiStopKeeps(mode: Mode, log: seq<Event>, started: bool, idle: Port, start: Port, stop: Port, tris: Port,
                     results: seq<bool>)
    requires Spi(mode) && SpiSettled(mode, log, started, idle, start, stop)
    ensures var ports := StopPorts(mode, idle, stop);
      var all := if PortsOk(ports, results) then ports + [idle] else ports;
      SpiSettled(mode, log + [Ended] + SendPorts(all, tris, results), false, idle, start, stop)
  {
    hide *;
    var ports, l := StopPorts(mode, idle, stop), log + [Ended];
    var all := if PortsOk(ports, results) then ports + [idle] else ports;
    SpiUnfold(mode, log, started, idle, start, stop);
    Mark(log, Ended);
    Marked(mode, log, Ended);
    PortsSent(all, tris, results);
    Buffers(l, SendPorts(all, tris, results));
    PortsMove(mode, l, all, tris, results);
    if AllTaken(log) {
      SpiStops(mode, SlaveAfter(mode, log), idle, start, stop);
    }
    SpiUnfold(mode, l + SendPorts(all, tris, results), false, idle, start, stop);
  }

  lemma SpiLevelKeeps(mode: Mode, log: seq<Event>, idle: Port, start: Port, stop: Port, g: Levels, pin: nat, high: bool,
                      tris: Port, ok: bool)
    requires Spi(mode) && SpiSettled(mode, log, false, idle, start, stop)
    ensures SpiSettled(mode, log + [Level(pin, high)] + [Sent(LowBuffer(start.(gpio := g), tris), ok)], false,
      idle.(gpio := g), start.(gpio := g), stop.(gpio := g))
  {
    hide *;
    var l, port := log + [Level(pin, high)], start.(gpio := g);
    SpiUnfold(mode, log, false, idle, start, stop);
    Mark(log, Level(pin, high));
    Marked(mode, log, Level(pin, high));
    OneBuffer(l, Sent(LowBuffer(port, tris), ok));
    OneSent(mode, l, LowBuffer(port, tris), ok);
    LowBufferMoves(mode, SlaveAfter(mode, l), port, tris);
    if AllTaken(log) {
      SpiLevels(mode, SlaveAfter(mode, log), idle, start, stop, g);
    }
    SamePins(mode, IdleHigh(log), idle, start, stop, g);
    SpiUnfold(mode, l + [Sent(LowBuffer(port, tris), ok)], false, idle.(gpio := g), port, stop.(gpio := g));
  }

  lemma SpiLevels(mode: Mode, s: Slave, idle: Port, start: Port, stop: Port, g: Levels)
    requires s.wire.Some? && s.wire.value.sk == ClockPolarity(mode) && SpiPins(mode, s.idleHigh, idle, start, stop)
    ensures Moved(mode, s, WireOf(start.(gpio := g)))
      == Slave(Some(Wire(ClockPolarity(mode), !s.idleHigh)), s.idleHigh, s.strays)
  {}

  lemma SamePins(mode: Mode, high: bool, idle: Port, start: Port, stop: Port, g: Levels)
    requires SpiPins(mode, high, idle, start, stop)
    ensures SpiPins(mode, high, idle.(gpio := g), start.(gpio := g), stop.(gpio := g))
  {}

  lemma SpiSelectKeeps(mode: Mode, log: seq<Event>, started: bool, idle: Port, start: Port, stop: Port, high: bool)
    requires SpiSettled(mode, log, started, idle, start, stop)
    ensures SpiSettled(mode, log + [Idles(high)], started, idle.(cs := high), start.(cs := !high), stop.(cs := high))
  {
    hide *;
    SpiUnfold(mode, log, started, idle, start, stop);
    Mark(log, Idles(high));
    Marked(mode, log, Idles(high));
    OtherIdle(mode, IdleHigh(log), idle, start, stop, high);
    SpiUnfold(mode, log + [Idles(high)], started, idle.(cs := high), start.(cs := !high), stop.(cs := high));
  }

  lemma OtherIdle(mode: Mode, was: bool, idle: Port, start: Port, stop: Port, high: bool)
    requires SpiPins(mode, was, idle, start, stop)
    ensures SpiPins(mode, high, idle.(cs := high), start.(cs := !high), stop.(cs := high))
  {}

  lemma SpiSilentKeeps(mode: Mode, log: seq<Event>, started: bool, idle: Port, start: Port, stop: Port,
                       buffer: Bytes, ok: bool)
    requires SpiSettled(mode, log, started, idle, start, stop) && Silent(buffer)
    ensures SpiSettled(mode, log + [Sent(buffer, ok)], started, idle, start, stop)
  {
    hide *;
    SpiUnfold(mode, log, started, idle, start, stop);
    OneBuffer(log, Sent(buffer, ok));
    OneSent(mode, log, buffer, ok);
    SilentMoves(mode, SlaveAfter(mode, log), buffer);
    SpiUnfold(mode, log + [Sent(buffer, ok)], started, idle, start, stop);
  }

  lemma SilentOp(op: Op)
    requires Proper(op) && !op.SetLow?
    ensures Silent(Encode(op))
  {
    OneEncoded(op);
    DecodeEncoded([op]);
  }

  lemma ClockIsSilent(freq: nat)
    ensures AllSilent(ClockBuffers(freq))
  {
    hide Silent, DivisorFor;
    var buffers := ClockBuffers(freq);
    SilentOp(Single(buffers[0][0]));
    SilentOp(Divisor(buffers[1][1], buffers[1][2]));
  }

  lemma SpiClockKeeps(mode: Mode, log: seq<Event>, started: bool, idle: Port, start: Port, stop: Port, freq: nat,
                      results: seq<bool>)
    requires SpiSettled(mode, log, started, idle, start, stop)
    ensures SpiSettled(mode, log + SendUntil(ClockBuffers(freq), results), started, idle, start, stop)
  {
    hide *;
    var buffers := ClockBuffers(freq);
    ClockIsSilent(freq);
    SpiUnfold(mode, log, started, idle, start, stop);
    SilentSent(mode, log, buffers, results);
    Buffers(log, SendUntil(buffers, results));
    SpiUnfold(mode, log + SendUntil(buffers, results), started, idle, start, stop);
  }

  // ---- SetMode and opening ----

  lemma ModePinsOfSpi(mode: Mode)
    requires Spi(mode)
    ensures var pins := ModePins(mode); SpiPins(mode, true, pins.idle, pins.start, pins.stop)
  {}

  lemma SetupIsSilent(mode: Mode)
    ensures Silent(SetupBuffer(mode)) && Silent([SET_BITS_HIGH, 0, 0xFF])
  {
    SilentOp(SetHigh(0, 0xFF));
    SilentOp(Single(DISABLE_ADAPTIVE_CLOCK));
    PairDecoded(DISABLE_ADAPTIVE_CLOCK, ENABLE_3_PHASE_CLOCK);
  }

  // The set-up of SetMode moves the pins to their idle state.
  lemma SpiSetup(mode: Mode, log: seq<Event>, idle: Port, tris: Port, results: seq<bool>)
    ensures var more := SetupEvents(mode, idle, tris, results);
      var l := log + more;
      && OnlySent(more)
      && (AllTaken(more) ==> SlaveAfter(mode, l) == Moved(mode, SlaveAfter(mode, log), WireOf(idle)))
      && IdleHigh(l) == IdleHigh(log) && WireBy(mode, l) == WireBy(mode, log)
      && StartedWith(l) == StartedWith(log) && StraysBy(mode, l) == StraysBy(mode, log)
  {
    hide LowBuffer, Moved, SlaveAfter, IdleHigh, WireBy, StartedWith, StraysBy, MovedIn, First, Rest, Silent,
      SetupBuffer;
    var b1, b2, b3 := SetupBuffer(mode), LowBuffer(idle, tris), [SET_BITS_HIGH, 0, 0xFF];
    var ok1, ok2, ok3 := First(results), First(Rest(results)), First(Rest(Rest(results)));
    SetupUnfold(log, mode, idle, tris, results);
    SetupIsSilent(mode);
    OneSent(mode, log, b1, ok1);
    SilentMoves(mode, SlaveAfter(mode, log), b1);
    OneSent(mode, log + [Sent(b1, ok1)], b2, ok2);
    LowBufferMoves(mode, SlaveAfter(mode, log), idle, tris);
    OneSent(mode, log + [Sent(b1, ok1)] + [Sent(b2, ok2)], b3, ok3);
    SilentMoves(mode, Moved(mode, SlaveAfter(mode, log), WireOf(idle)), b3);
    SetupTaken(mode, idle, tris, results);
  }

  lemma SetupTaken(mode: Mode, idle: Port, tris: Port, results: seq<bool>)
    ensures AllTaken(SetupEvents(mode, idle, tris, results)) ==>
      First(results) && First(Rest(results)) && First(Rest(Rest(results)))
  {
    hide LowBuffer, SetupBuffer, First, Rest;
    var more := SetupEvents(mode, idle, tris, results);
    if AllTaken(more) {
      assert more[0].ok;
      assert more[1].ok && more[2].ok;
    }
  }

  // Setting the pins idle does not select the slave.
  lemma MovedIdle(mode: Mode, s: Slave, idle: Port)
    requires s.idleHigh && idle.sk == ClockPolarity(mode) && idle.cs
    ensures Moved(mode, s, WireOf(idle)) == Slave(Some(Wire(ClockPolarity(mode), true)), true, s.strays)
  {}

  lemma SpiModeKeeps(mode: Mode, log: seq<Event>, lsb: bool, started: bool, idle: Port, start: Port, stop: Port,
                     tris: Port, ok: bool, results: seq<bool>)
    requires Spi(mode) && SpiSettled(mode, log, started, idle, start, stop)
    ensures var pins := ModePins(mode);
      SpiSettled(mode, log + [Reset(lsb)] + [Sent([LOOPBACK_END], ok)] + SetupEvents(mode, pins.idle, tris, results),
        started, pins.idle, pins.start, pins.stop)
  {
    hide *;
    var pins, loopback := ModePins(mode), Sent([LOOPBACK_END], ok);
    var l := log + [Reset(lsb)];
    ModePinsOfSpi(mode);
    PinsUnfold(mode, true, pins.idle, pins.start, pins.stop);
    SpiUnfold(mode, log, started, idle, start, stop);
    Mark(log, Reset(lsb));
    Marked(mode, log, Reset(lsb));
    LoopbackIsSilent();
    OneBuffer(l, loopback);
    OneSent(mode, l, [LOOPBACK_END], ok);
    SilentMoves(mode, SlaveAfter(mode, l), [LOOPBACK_END]);
    SpiSetup(mode, l + [loopback], pins.idle, tris, results);
    Buffers(l + [loopback], SetupEvents(mode, pins.idle, tris, results));
    if AllTaken(log) {
      MovedIdle(mode, SlaveAfter(mode, l), pins.idle);
    }
    SpiUnfold(mode, l + [loopback] + SetupEvents(mode, pins.idle, tris, results), started,
      pins.idle, pins.start, pins.stop);
  }

  lemma PinsUnfold(mode: Mode, high: bool, idle: Port, start: Port, stop: Port)
    requires SpiPins(mode, high, idle, start, stop)
    ensures idle.sk == ClockPolarity(mode) && idle.cs == high
  {}

  lemma LoopbackIsSilent()
    ensures Silent([LOOPBACK_END])
  {
    SilentOp(Single(LOOPBACK_END));
  }

  lemma SpiOpeningSettles(mode: Mode, freq: nat, lsb: bool, answers: seq<bool>, tris: Port, results: seq<bool>)
    requires Spi(mode)
    ensures var pins := ModePins(mode);
      SpiSettled(mode,
        [] + SendUntil(ClockBuffers(freq), answers) + [Reset(lsb)] + SetupEvents(mode, pins.idle, tris, results),
        false, pins.idle, pins.start, pins.stop)
  {
    hide *;
    var pins, clock := ModePins(mode), SendUntil(ClockBuffers(freq), answers);
    var setup := SetupEvents(mode, pins.idle, tris, results);
    ModePinsOfSpi(mode);
    PinsUnfold(mode, true, pins.idle, pins.start, pins.stop);
    NothingShown(mode);
    NothingExpected();
    ClockIsSilent(freq);
    SilentSent(mode, [], ClockBuffers(freq), answers);
    Buffers([], clock);
    Mark([] + clock, Reset(lsb));
    Marked(mode, [] + clock, Reset(lsb));
    SpiSetup(mode, [] + clock + [Reset(lsb)], pins.idle, tris, results);
    Buffers([] + clock + [Reset(lsb)], setup);
    MovedIdle(mode, SlaveAfter(mode, [] + clock + [Reset(lsb)]), pins.idle);
    SpiUnfold(mode, [] + clock + [Reset(lsb)] + setup, false, pins.idle, pins.start, pins.stop);
  }

  lemma NothingShown(mode: Mode)
    ensures SlaveAfter(mode, []) == Slave(None, true, 0) && IdleHigh([]) && WireBy(mode, []) == None
    ensures StartedWith([]) == None && StraysBy(mode, []) == 0
  {}

  // ---- Over whole runs ----

  // A run has shown the slave no sampling edge besides those of the data exactly if there was no
  // Start of a slave that was still selected, or the mode is 0 or 2.
  lemma {:induction false} StraysExact(mode: Mode, log: seq<Event>)
    requires Spi(mode)
    ensures StraysBy(mode, log) == 0 <==>
      mode in {Spi0, Spi2} || forall i :: 0 <= i < |log| ==> !RepeatedStart(log, i)
  {
    if log != [] {
      var last := |log| - 1;
      StraysExact(mode, log[..last]);
      forall i | 0 <= i < last ensures RepeatedStart(log[..last], i) == RepeatedStart(log, i) {
        assert log[..last][..i] == log[..i];
      }
      assert StraysBy(mode, log)
        == StraysBy(mode, log[..last]) + if RepeatedStart(log, last) && mode in {Spi1, Spi3} then 1 else 0;
      assert (forall i :: 0 <= i < |log| ==> !RepeatedStart(log, i)) <==>
        (forall i :: 0 <= i < last ==> !RepeatedStart(log[..last], i)) && !RepeatedStart(log, last);
    }
  }

  // A second Start in mode 3 or 1
  lemma RepeatedStartInput(mode: Mode)
    requires mode in {Spi1, Spi3}
    ensures StraysBy(mode, [Reset(false), Begun, Begun]) == 1
  {
    var l0, l1, l2 := [Reset(false)], [Reset(false), Begun], [Reset(false), Begun, Begun];
    assert l2[..2] == l1 && l1[..1] == l0 && l0[..0] == [];
    assert IdleHigh(l0) && StartedWith(l1) == Some(true) && IdleHigh(l1);
    assert StraysBy(mode, l0) == 0 && StraysBy(mode, l1) == 0;
  }

  predicate RepeatedStart(log: seq<Event>, i: nat)
    requires i < |log|
  {
    log[i].Begun? && StartedWith(log[..i]) == Some(IdleHigh(log[..i]))
  }

  // The calls that select the slave, and those that deselect it
  predicate Selects(e: Event) { e.Begun? || e.Level? }
  predicate Deselects(e: Event) { e.Ended? || e.Reset? }

  // As long as the idle level of chip select is left alone, the slave is selected exactly if a
  // Start, or the writing of a low GPIO pin, came since the last Stop or SetMode.
  lemma {:induction false} SelectedExact(mode: Mode, log: seq<Event>)
    requires forall i :: 0 <= i < |log| ==> !log[i].Idles?
    ensures IdleHigh(log)
    ensures (WireBy(mode, log).Some? && !WireBy(mode, log).value.cs) <==> Selected(log)
  {
    if log != [] {
      var last, before := |log| - 1, log[..|log| - 1];
      SelectedExact(mode, before);
      if Selects(log[last]) {
        assert Selected(log);
      } else {
        if Selected(log) {
          var i :| 0 <= i < |log| && Selects(log[i]) && forall j :: i < j < |log| ==> !Deselects(log[j]);
          assert i < last && !Deselects(log[last]);
          assert before[i] == log[i] && forall j :: i < j < last ==> before[j] == log[j];
          assert Selected(before);
        }
        if Selected(before) && !Deselects(log[last]) {
          var i :| 0 <= i < last && Selects(before[i]) && forall j :: i < j < last ==> !Deselects(before[j]);
          assert forall j :: i < j < last ==> before[j] == log[j];
          assert Selects(log[i]) && forall j :: i < j < |log| ==> !Deselects(log[j]);
        }
      }
    }
  }

  ghost predicate Selected(log: seq<Event>) {
    exists i :: 0 <= i < |log| && Selects(log[i]) && forall j :: i < j < |log| ==> !Deselects(log[j])
  }

  // ---- Either bus ----

  // What every call keeps of the lines: on I2C the start and stop conditions, on SPI what the
  // slave sees
  predicate LinesKept(mode: Mode, log: seq<Event>, started: bool, idle: Port, start: Port, stop: Port) {
    && (mode.I2c? ==> Settled(log, started, idle, start, stop))
    && (Spi(mode) ==> SpiSettled(mode, log, started, idle, start, stop))
  }

  // What the buffers of a transfer do to the pins
  predicate Harmless(mode: Mode, size: nat, buffers: seq<Bytes>) {
    if mode.I2c? then AllQuiet(buffers) && (size == 0 <==> buffers == []) else AllSilent(buffers)
  }

  lemma TransferKept(mode: Mode, log: seq<Event>, started: bool, idle: Port, start: Port, stop: Port,
                     size: nat, buffers: seq<Bytes>, results: seq<bool>)
    requires LinesKept(mode, log, started, idle, start, stop) && Harmless(mode, size, buffers)
    ensures LinesKept(mode, log + [Transfer(size)] + SendUntil(buffers, results), started, idle, start, stop)
  {
    hide Settled, SpiSettled, SendUntil, AllQuiet, AllSilent;
    if mode.I2c? {
      TransferKeeps(log, started, idle, start, stop, size, buffers, results);
    } else if Spi(mode) {
      SpiTransferKeeps(mode, log, started, idle, start, stop, size, buffers, results);
    }
  }

  lemma StartKept(mode: Mode, log: seq<Event>, started: bool, idle: Port, start: Port, stop: Port, tris: Port,
                  results: seq<bool>)
    requires LinesKept(mode, log, started, idle, start, stop)
    ensures LinesKept(mode, log + [Begun] + SendPorts(StartPorts(mode, started, idle, start), tris, results), true,
      idle, start, stop)
  {
    hide Settled, SpiSettled, SendPorts, StartPorts;
    if mode.I2c? {
      StartKeeps(log, started, idle, start, stop, tris, results);
    } else if Spi(mode) {
      SpiStartKeeps(mode, log, started, idle, start, stop, tris, results);
    }
  }

  lemma StopKept(mode: Mode, log: seq<Event>, started: bool, idle: Port, start: Port, stop: Port, tris: Port,
                 results: seq<bool>)
    requires LinesKept(mode, log, started, idle, start, stop)
    ensures var ports := StopPorts(mode, idle, stop);
      var all := if PortsOk(ports, results) then ports + [idle] else ports;
      LinesKept(mode, log + [Ended] + SendPorts(all, tris, results), false, idle, start, stop)
  {
    hide Settled, SpiSettled, SendPorts, StopPorts, PortsOk;
    if mode.I2c? {
      StopKeeps(log, started, idle, start, stop, tris, results);
    } else if Spi(mode) {
      SpiStopKeeps(mode, log, started, idle, start, stop, tris, results);
    }
  }

  lemma LevelKept(mode: Mode, log: seq<Event>, idle: Port, start: Port, stop: Port, g: Levels, pin: nat, high: bool,
                  tris: Port, ok: bool)
    requires LinesKept(mode, log, false, idle, start, stop)
    ensures LinesKept(mode, log + [Level(pin, high)] + [Sent(LowBuffer(start.(gpio := g), tris), ok)], false,
      idle.(gpio := g), start.(gpio := g), stop.(gpio := g))
  {
    hide Settled, SpiSettled, LowBuffer;
    if mode.I2c? {
      LevelKeeps(log, idle, start, stop, g, pin, high, tris, ok);
    } else if Spi(mode) {
      SpiLevelKeeps(mode, log, idle, start, stop, g, pin, high, tris, ok);
    }
  }

  lemma SelectKept(mode: Mode, log: seq<Event>, started: bool, idle: Port, start: Port, stop: Port, high: bool)
    requires LinesKept(mode, log, started, idle, start, stop)
    ensures LinesKept(mode, log + [Idles(high)], started, idle.(cs := high), start.(cs := !high), stop.(cs := high))
  {
    hide Settled, SpiSettled;
    if mode.I2c? {
      SelectSettles(log, started, idle, start, stop, high);
    } else if Spi(mode) {
      SpiSelectKeeps(mode, log, started, idle, start, stop, high);
    }
  }

  // A buffer that sets the high GPIO pins
  lemma HighKept(mode: Mode, log: seq<Event>, started: bool, idle: Port, start: Port, stop: Port, value: Byte,
                 direction: Byte, ok: bool)
    requires LinesKept(mode, log, started, idle, start, stop)
    ensures LinesKept(mode, log + [Sent([SET_BITS_HIGH, value, direction], ok)], started, idle, start, stop)
  {
    hide Settled, SpiSettled, LinesIn, Silent;
    if mode.I2c? {
      SilentBuffer(SetHigh(value, direction));
      SilentKeeps(log, started, idle, start, stop, [SET_BITS_HIGH, value, direction], ok);
    } else if Spi(mode) {
      SilentOp(SetHigh(value, direction));
      SpiSilentKeeps(mode, log, started, idle, start, stop, [SET_BITS_HIGH, value, direction], ok);
    }
  }

  lemma ClockKept(mode: Mode, log: seq<Event>, started: bool, idle: Port, start: Port, stop: Port, freq: nat,
                  results: seq<bool>)
    requires LinesKept(mode, log, started, idle, start, stop)
    ensures LinesKept(mode, log + SendUntil(ClockBuffers(freq), results), started, idle, start, stop)
  {
    hide Settled, SpiSettled, SendUntil, ClockBuffers;
    if mode.I2c? {
      ClockKeeps(log, started, idle, start, stop, freq, results);
    } else if Spi(mode) {
      SpiClockKeeps(mode, log, started, idle, start, stop, freq, results);
    }
  }

  lemma ModeKept(mode: Mode, log: seq<Event>, lsb: bool, started: bool, idle: Port, start: Port, stop: Port,
                 tris: Port, ok: bool, results: seq<bool>)
    requires LinesKept(mode, log, started, idle, start, stop)
    ensures var pins := ModePins(mode);
      LinesKept(mode, log + [Reset(lsb)] + [Sent([LOOPBACK_END], ok)] + SetupEvents(mode, pins.idle, tris, results),
        started, pins.idle, pins.start, pins.stop)
  {
    hide Settled, SpiSettled, SetupEvents, ModePins;
    if mode.I2c? {
      ModeKeeps(log, lsb, started, idle, start, stop, tris, ok, results);
    } else if Spi(mode) {
      SpiModeKeeps(mode, log, lsb, started, idle, start, stop, tris, ok, results);
    }
  }

  lemma OpeningKept(mode: Mode, freq: nat, lsb: bool, answers: seq<bool>, tris: Port, results: seq<bool>)
    ensures var pins := ModePins(mode);
      LinesKept(mode,
        [] + SendUntil(ClockBuffers(freq), answers) + [Reset(lsb)] + SetupEvents(mode, pins.idle, tris, results),
        false, pins.idle, pins.start, pins.stop)
  {
    hide Settled, SpiSettled, SetupEvents, ModePins, SendUntil, ClockBuffers;
    if mode.I2c? {
      OpeningSettles(freq, lsb, answers, tris, results);
    } else if Spi(mode) {
      SpiOpeningSettles(mode, freq, lsb, answers, tris, results);
    }
  }
}
