/**
  What the pins of an I2C context mean on the bus: start and stop conditions over whole runs.
  src/libmpsse/mpsse.c.
*/
module MpsseBus {
  import opened Common
  import opened MpsseClock
  import opened MpsseStream
  import opened MpsseTrace

  // ---- Lines and conditions ----

  // Clock and data
  datatype Line = Line(sk: bool, do: bool)

  const HIGH := Line(true, true)
  const HELD := Line(true, false)

  function LineOf(p: Port): Line {
    Line(p.sk, p.do)
  }

  // On I2C a start condition is the data line falling, and a stop condition is it rising,
  // while the clock is high.
  predicate StartCondition(a: Line, b: Line) { a.sk && b.sk && a.do && !b.do }
  predicate StopCondition(a: Line, b: Line) { a.sk && b.sk && !a.do && b.do }

  datatype Condition = StartBit | StopBit

  function Between(a: Line, b: Line): seq<Condition> {
    if StartCondition(a, b) then [StartBit] else if StopCondition(a, b) then [StopBit] else []
  }

  function Conditions(lines: seq<Line>): seq<Condition> {
    if |lines| < 2 then [] else
    Conditions(lines[..|lines| - 1]) + Between(lines[|lines| - 2], lines[|lines| - 1])
  }

  lemma OneLine(lines: seq<Line>, x: Line)
    ensures Conditions(lines + [x]) == Conditions(lines) + if lines == [] then [] else Between(lines[|lines| - 1], x)
  {
    assert (lines + [x])[..|lines|] == lines;
  }

  // The states that an operation of the pins makes the lines take. A clocking command leaves
  // the clock low, as it found it, and changes the data line only then.
  function LinesOf(ops: seq<Op>): seq<Line> {
    if ops == [] then [] else
    (if ops[0].SetLow? then [LineAt(ops[0].value)] else []) + LinesOf(ops[1..])
  }

  function LineAt(value: Byte): Line {
    Line(value % 2 == 1, value / 2 % 2 == 1)
  }

  lemma PortLine(p: Port)
    ensures LineAt(PortByte(p)) == LineOf(p)
  {
    assert PortByte(p) / 2 == Flag(p.do) + 2 * Flag(p.di) + 4 * Flag(p.cs) + 8 * Nibble(p.gpio);
  }

  function LinesIn(buffer: Bytes): seq<Line> {
    match Decode(buffer)
    case None => []
    case Some(ops) => LinesOf(ops)
  }

  // What the buffers that the device took put on the bus
  function Bus(log: seq<Event>): seq<Line> {
    if log == [] then [] else
    var e := log[|log| - 1];
    Bus(log[..|log| - 1]) + if e.Sent? && e.ok then LinesIn(e.buffer) else []
  }

  // The bus was last left like this.
  predicate EndsIn(log: seq<Event>, line: Line) {
    Bus(log) != [] && Bus(log)[|Bus(log)| - 1] == line
  }

  // ---- What the calls should put on the bus ----

  predicate StartedAt(log: seq<Event>) {
    log != [] && (log[|log| - 1].Begun? || (!log[|log| - 1].Ended? && StartedAt(log[..|log| - 1])))
  }

  // How the calls leave the lines: both high, the data line held low, the clock low; or nothing
  // has been put on the bus yet
  datatype Left = Nothing | Idle | Held | Low

  function LeftBy(log: seq<Event>): Left {
    if log == [] then Nothing else
    match log[|log| - 1]
    case Reset(_) => Idle
    case Ended => Idle
    case Begun => Held
    case Level(_, _) => Held
    case Idles(_) => LeftBy(log[..|log| - 1])
    case Transfer(size) => if size > 0 then Low else LeftBy(log[..|log| - 1])
    case Sent(_, _) => LeftBy(log[..|log| - 1])
  }

  predicate Shows(line: Line, left: Left) {
    match left
    case Nothing => false
    case Idle => line == HIGH
    case Held => line == HELD
    case Low => !line.sk
  }

  // The calls that leave the lines other than high
  predicate Disturbs(e: Event) {
    e.Begun? || e.Level? || (e.Transfer? && e.size > 0)
  }

  // None of them came since the last Stop or SetMode, which opening the context calls too.
  ghost predicate Undisturbed(log: seq<Event>) {
    exists i :: 0 <= i < |log| && (log[i].Reset? || log[i].Ended?) && forall j :: i < j < |log| ==> !Disturbs(log[j])
  }

  lemma {:induction false} IdleExact(log: seq<Event>)
    ensures LeftBy(log).Idle? <==> Undisturbed(log)
  {
    if log != [] {
      var last, before := |log| - 1, log[..|log| - 1];
      IdleExact(before);
      if log[last].Reset? || log[last].Ended? {
        assert Undisturbed(log);
      } else {
        if Undisturbed(log) {
          var i :| 0 <= i < |log| && (log[i].Reset? || log[i].Ended?)
            && forall j :: i < j < |log| ==> !Disturbs(log[j]);
          assert before[i] == log[i] && forall j :: i < j < last ==> before[j] == log[j];
        }
        if Undisturbed(before) && !Disturbs(log[last]) {
          var i :| 0 <= i < last && (before[i].Reset? || before[i].Ended?)
            && forall j :: i < j < last ==> !Disturbs(before[j]);
          assert log[i] == before[i] && forall j :: i < j < last ==> !Disturbs(log[j]) by {
            assert forall j :: i < j < last ==> before[j] == log[j];
          }
        }
      }
    }
  }

  // Stop makes a stop condition, whatever the bus is like. Start makes a start condition if it
  // is a repeated one or the lines are high, and so does writing a low GPIO pin, which sets the
  // pins to their start state; SetMode makes a stop condition if the data line is held low with
  // the clock high.
  function Expected(log: seq<Event>): seq<Condition> {
    if log == [] then [] else
    var before := log[..|log| - 1];
    Expected(before) +
    match log[|log| - 1]
    case Begun => if StartedAt(before) || LeftBy(before).Idle? then [StartBit] else []
    case Ended => [StopBit]
    case Level(_, _) => if LeftBy(before).Idle? then [StartBit] else []
    case Reset(_) => if LeftBy(before).Held? then [StopBit] else []
    case _ => []
  }

  // One start condition for every Start, and one stop condition for every Stop
  function Framing(log: seq<Event>): seq<Condition> {
    if log == [] then [] else
    var e := log[|log| - 1];
    Framing(log[..|log| - 1]) + if e.Begun? then [StartBit] else if e.Ended? then [StopBit] else []
  }

  // Data is transferred between Start and Stop only, SetMode is called outside of that, and no
  // low GPIO pin is written.
  predicate Calm(log: seq<Event>) {
    log == [] ||
    var before := log[..|log| - 1];
    && Calm(before)
    && match log[|log| - 1]
       case Level(_, _) => false
       case Transfer(size) => size == 0 || StartedAt(before)
       case Reset(_) => !StartedAt(before)
       case _ => true
  }

  // Whatever SetCSIdle and the GPIO pins have become
  predicate I2cLines(idle: Port, start: Port, stop: Port) {
    LineOf(idle) == HIGH && LineOf(start) == LineOf(stop) == HELD
  }

  // What every call keeps: if the device took every buffer, exactly the expected conditions have
  // been on the bus, and the lines are as the calls should have left them.
  predicate Settled(log: seq<Event>, started: bool, idle: Port, start: Port, stop: Port) {
    && I2cLines(idle, start, stop) && StartedAt(log) == started
    && (AllTaken(log) ==>
      && Bus(log) != [] && Shows(Bus(log)[|Bus(log)| - 1], LeftBy(log)) && Conditions(Bus(log)) == Expected(log)
      && (Calm(log) ==> Expected(log) == Framing(log) && (started || LeftBy(log).Idle?)))
  }

  // ---- Appending to the log ----

  lemma Mark(log: seq<Event>, e: Event)
    requires !e.Sent?
    ensures Bus(log + [e]) == Bus(log) && (AllTaken(log + [e]) <==> AllTaken(log))
    ensures StartedAt(log + [e]) <==> e.Begun? || (!e.Ended? && StartedAt(log))
    ensures Expected(log + [e]) == Expected(log) +
      match e
      case Begun => if StartedAt(log) || LeftBy(log).Idle? then [StartBit] else []
      case Ended => [StopBit]
      case Level(_, _) => if LeftBy(log).Idle? then [StartBit] else []
      case Reset(_) => if LeftBy(log).Held? then [StopBit] else []
      case _ => []
    ensures Framing(log + [e]) == Framing(log) + if e.Begun? then [StartBit] else if e.Ended? then [StopBit] else []
    ensures Calm(log + [e]) <==>
      Calm(log) && !e.Level? && (e.Transfer? && e.size > 0 ==> StartedAt(log)) && (e.Reset? ==> !StartedAt(log))
    ensures LeftBy(log + [e]) ==
      if e.Reset? || e.Ended? then Idle
      else if e.Begun? || e.Level? then Held
      else if e.Transfer? && e.size > 0 then Low
      else LeftBy(log)
  {
    var longer := log + [e];
    assert longer[..|longer| - 1] == log && longer[|longer| - 1] == e;
    assert forall i :: 0 <= i < |log| ==> longer[i] == log[i];
  }

  predicate OnlySent(more: seq<Event>) {
    forall i :: 0 <= i < |more| ==> more[i].Sent?
  }

  lemma NothingLogged()
    ensures Bus([]) == [] && AllTaken([])
  {}

  lemma {:induction false} Buffers(log: seq<Event>, more: seq<Event>)
    requires OnlySent(more)
    ensures Bus(log + more) == Bus(log) + Bus(more) && (AllTaken(log + more) <==> AllTaken(log) && AllTaken(more))
    ensures StartedAt(log + more) == StartedAt(log) && Expected(log + more) == Expected(log)
    ensures Framing(log + more) == Framing(log) && Calm(log + more) == Calm(log) && LeftBy(log + more) == LeftBy(log)
  {
    hide LinesIn, Bus, AllTaken, StartedAt, Expected, Framing, Calm, LeftBy;
    if more == [] {
      NothingLogged();
      assert log + more == log && Bus(log) + [] == Bus(log);
    } else {
      var n := |more| - 1;
      Buffers(log, more[..n]);
      assert log + more == log + more[..n] + [more[n]];
      OneBuffer(log + more[..n], more[n]);
      assert more == more[..n] + [more[n]];
      OneBuffer(more[..n], more[n]);
    }
  }

  lemma OneBuffer(log: seq<Event>, e: Event)
    requires e.Sent?
    ensures Bus(log + [e]) == Bus(log) + (if e.ok then LinesIn(e.buffer) else [])
    ensures AllTaken(log + [e]) <==> AllTaken(log) && e.ok
    ensures StartedAt(log + [e]) == StartedAt(log) && Expected(log + [e]) == Expected(log)
    ensures Framing(log + [e]) == Framing(log) && Calm(log + [e]) == Calm(log) && LeftBy(log + [e]) == LeftBy(log)
  {
    hide LinesIn;
    var longer := log + [e];
    assert longer[..|longer| - 1] == log && longer[|longer| - 1] == e;
    assert forall i :: 0 <= i < |log| ==> longer[i] == log[i];
  }

  // ---- What the buffers put on the bus ----

  lemma LowBufferLine(port: Port, tris: Port)
    ensures LinesIn(LowBuffer(port, tris)) == [LineOf(port)]
  {
    hide PortByte;
    PortLine(port);
    var op := SetLow(PortByte(port), PortByte(tris));
    OneEncoded(op);
    DecodeEncoded([op]);
    assert LinesOf([op]) == [LineAt(op.value)];
  }

  lemma SilentBuffer(op: Op)
    requires Proper(op) && !op.SetLow?
    ensures LinesIn(Encode(op)) == []
  {
    OneEncoded(op);
    DecodeEncoded([op]);
    assert LinesOf([op]) == [];
  }

  function PortLines(ports: seq<Port>): (lines: seq<Line>)
    ensures |lines| == |ports| && forall i :: 0 <= i < |ports| ==> lines[i] == LineOf(ports[i])
  {
    seq(|ports|, i requires 0 <= i < |ports| => LineOf(ports[i]))
  }

  lemma {:induction false} PortsSent(ports: seq<Port>, tris: Port, results: seq<bool>)
    ensures OnlySent(SendPorts(ports, tris, results))
    ensures AllTaken(SendPorts(ports, tris, results)) ==> Bus(SendPorts(ports, tris, results)) == PortLines(ports)
    ensures AllTaken(SendPorts(ports, tris, results)) <==> PortsOk(ports, results)
  {
    hide *;
    if ports == [] {
      NoPortsSent(tris, results);
    } else {
      PortsSent(ports[1..], tris, Rest(results));
      PortSent(ports[0], tris, First(results), SendPorts(ports[1..], tris, Rest(results)));
      PortsUnfold(ports, tris, results);
    }
  }

  lemma NoPortsSent(tris: Port, results: seq<bool>)
    ensures OnlySent(SendPorts([], tris, results)) && AllTaken(SendPorts([], tris, results)) && PortsOk([], results)
    ensures Bus(SendPorts([], tris, results)) == [] == PortLines([])
  {}

  lemma PortsUnfold(ports: seq<Port>, tris: Port, results: seq<bool>)
    requires ports != []
    ensures SendPorts(ports, tris, results)
      == [Sent(LowBuffer(ports[0], tris), First(results))] + SendPorts(ports[1..], tris, Rest(results))
    ensures PortsOk(ports, results) == (First(results) && PortsOk(ports[1..], Rest(results)))
    ensures PortLines(ports) == [LineOf(ports[0])] + PortLines(ports[1..])
  {}

  lemma PortSent(port: Port, tris: Port, ok: bool, more: seq<Event>)
    requires OnlySent(more)
    ensures var e := Sent(LowBuffer(port, tris), ok);
      && OnlySent([e] + more) && (AllTaken([e] + more) <==> ok && AllTaken(more))
      && (ok ==> Bus([e] + more) == [LineOf(port)] + Bus(more))
  {
    hide Bus, AllTaken, LinesIn, LowBuffer, StartedAt, Expected, Framing, Calm, LeftBy;
    var e := Sent(LowBuffer(port, tris), ok);
    NothingLogged();
    Buffers([e], more);
    assert [] + [e] == [e];
    OneBuffer([], e);
    LowBufferLine(port, tris);
  }

  // ---- Transfers keep the clock low ----

  predicate Quiet(lines: seq<Line>) {
    forall i :: 0 <= i < |lines| ==> !lines[i].sk
  }

  predicate OpsQuiet(ops: seq<Op>) {
    forall i :: 0 <= i < |ops| && ops[i].SetLow? ==> ops[i].value % 2 == 0
  }

  lemma {:induction false} QuietTail(lines: seq<Line>, more: seq<Line>)
    requires Quiet(more)
    ensures Conditions(lines + more) == Conditions(lines)
  {
    if more == [] {
      assert lines + more == lines;
    } else {
      var n := |more| - 1;
      QuietTail(lines, more[..n]);
      assert lines + more == lines + more[..n] + [more[n]];
      OneLine(lines + more[..n], more[n]);
    }
  }

  lemma {:induction false} QuietOps(ops: seq<Op>)
    requires OpsQuiet(ops)
    ensures Quiet(LinesOf(ops))
  {
    if ops != [] {
      QuietOps(ops[1..]);
    }
  }

  // In every block of an I2C transfer the pins are set with the clock low.
  lemma BlockQuiet(cfg: Settings, cmd: Command, data: Bytes, count: nat)
    requires cfg.mode.I2c?
    ensures OpsQuiet(Block(cfg, cmd, data, count))
  {}

  lemma {:induction false} WriteQuiet(cfg: Settings, cmd: Command, data: Bytes)
    requires Sane(cfg) && cfg.mode.I2c?
    ensures OpsQuiet(WriteBlocks(cfg, cmd, data))
  {
    hide Block;
    if data != [] {
      var n := Min(XferSize(cfg, cmd), |data|);
      BlockQuiet(cfg, cmd, data[..n], n);
      WriteQuiet(cfg, cmd, data[n..]);
    }
  }

  lemma {:induction false} ReadQuiet(cfg: Settings, count: nat, blocks: nat)
    requires cfg.mode.I2c?
    ensures OpsQuiet(ReadBlocks(cfg, count, blocks))
  {
    hide Block;
    if blocks > 0 {
      BlockQuiet(cfg, cfg.rx, [], count);
      ReadQuiet(cfg, count, blocks - 1);
    }
  }

  lemma PinsSet(ops: seq<Op>)
    requires ops != [] && ops[0].SetLow?
    ensures LinesOf(ops) != []
  {}

  lemma FirstSetsPins(cfg: Settings, cmd: Command, data: Bytes)
    requires Sane(cfg) && cfg.mode.I2c? && data != []
    ensures var ops := BlockOps(cfg, cmd, data); ops != [] && ops[0].SetLow?
  {
    hide NumBlocks, PortByte;
    if cmd == cfg.rx {
      NumBlocksStep(|data|, XferSize(cfg, cmd));
    }
  }

  // So no transfer makes a start or stop condition.
  lemma TransferQuiet(cfg: Settings, cmd: Command, data: Bytes)
    requires Sane(cfg) && cfg.mode.I2c? && cmd in {cfg.tx, cfg.rx, cfg.txrx}
    ensures Quiet(LinesIn(EncodeAll(BlockOps(cfg, cmd, data))))
    ensures data != [] ==> LinesIn(EncodeAll(BlockOps(cfg, cmd, data))) != []
  {
    hide WriteBlocks, ReadBlocks, EncodeAll, LinesOf, NumBlocks;
    if data != [] {
      FirstSetsPins(cfg, cmd, data);
      PinsSet(BlockOps(cfg, cmd, data));
    }
    BlocksFit(cfg, cmd, data);
    if cmd == cfg.rx {
      ReadQuiet(cfg, Min(XferSize(cfg, cmd), |data|), NumBlocks(|data|, XferSize(cfg, cmd)));
    } else {
      WriteQuiet(cfg, cmd, data);
    }
    DecodeEncoded(BlockOps(cfg, cmd, data));
    QuietOps(BlockOps(cfg, cmd, data));
  }

  // Every buffer sets the pins, and only with the clock low.
  predicate AllQuiet(buffers: seq<Bytes>) {
    forall i :: 0 <= i < |buffers| ==> LinesIn(buffers[i]) != [] && Quiet(LinesIn(buffers[i]))
  }

  lemma {:induction false} QuietSent(buffers: seq<Bytes>, results: seq<bool>)
    requires AllQuiet(buffers)
    ensures OnlySent(SendUntil(buffers, results)) && Quiet(Bus(SendUntil(buffers, results)))
    ensures AllTaken(SendUntil(buffers, results)) ==> (Bus(SendUntil(buffers, results)) == [] <==> buffers == [])
  {
    hide LinesIn, Bus, First, Rest, Quiet, AllTaken;
    NothingLogged();
    if buffers != [] {
      var more := if First(results) then SendUntil(buffers[1..], Rest(results)) else [];
      if First(results) {
        QuietSent(buffers[1..], Rest(results));
      } else {
        NoLines();
      }
      QuietBuffer(buffers[0], First(results), more);
    } else {
      NoLines();
    }
  }

  lemma NoLines()
    ensures Quiet([])
  {}

  lemma QuietBuffer(buffer: Bytes, ok: bool, more: seq<Event>)
    requires LinesIn(buffer) != [] && Quiet(LinesIn(buffer)) && OnlySent(more) && Quiet(Bus(more))
    ensures var all := [Sent(buffer, ok)] + more;
      OnlySent(all) && Quiet(Bus(all)) && (AllTaken(all) ==> Bus(all) != [])
  {
    hide LinesIn, Bus, AllTaken, StartedAt, Expected, Framing, Calm, LeftBy;
    var e := Sent(buffer, ok);
    NothingLogged();
    Buffers([e], more);
    assert [] + [e] == [e];
    OneBuffer([], e);
  }

  // ---- What every call keeps ----

  lemma TransferKeeps(log: seq<Event>, started: bool, idle: Port, start: Port, stop: Port,
                      size: nat, buffers: seq<Bytes>, results: seq<bool>)
    requires Settled(log, started, idle, start, stop) && AllQuiet(buffers) && (size == 0 <==> buffers == [])
    ensures Settled(log + [Transfer(size)] + SendUntil(buffers, results), started, idle, start, stop)
  {
    hide Bus, AllTaken, StartedAt, Expected, Framing, Calm, LeftBy, Conditions, SendUntil;
    var more := SendUntil(buffers, results);
    QuietSent(buffers, results);
    Mark(log, Transfer(size));
    Buffers(log + [Transfer(size)], more);
    QuietTail(Bus(log), Bus(more));
    QuietEnd(Bus(log), Bus(more));
  }

  lemma QuietEnd(lines: seq<Line>, more: seq<Line>)
    requires Quiet(more)
    ensures more == [] ==> lines + more == lines
    ensures more != [] ==> lines + more != [] && !(lines + more)[|lines + more| - 1].sk
  {}

  lemma StartKeeps(log: seq<Event>, started: bool, idle: Port, start: Port, stop: Port, tris: Port, results: seq<bool>)
    requires Settled(log, started, idle, start, stop)
    ensures Settled(log + [Begun] + SendPorts(StartPorts(I2c, started, idle, start), tris, results), true,
      idle, start, stop)
  {
    hide Bus, AllTaken, StartedAt, Expected, Framing, Calm, LeftBy, Conditions, SendPorts, StartPorts, PortLines;
    var ports := StartPorts(I2c, started, idle, start);
    PortsSent(ports, tris, results);
    Mark(log, Begun);
    Buffers(log + [Begun], SendPorts(ports, tris, results));
    if AllTaken(log) {
      I2cStarts(Bus(log), started, idle, start, stop);
    }
  }

  lemma ThreeLines(lines: seq<Line>, a: Line, b: Line, c: Line)
    requires lines != []
    ensures Conditions(lines + [a, b, c])
      == Conditions(lines) + Between(lines[|lines| - 1], a) + Between(a, b) + Between(b, c)
  {
    hide Conditions, Between;
    OneByOne(lines, a, b, c);
    OneLine(lines, a);
    OneLine(lines + [a], b);
    OneLine(lines + [a] + [b], c);
  }

  lemma OneByOne(lines: seq<Line>, a: Line, b: Line, c: Line)
    ensures lines + [a, b, c] == lines + [a] + [b] + [c]
    ensures lines + [a] != [] && (lines + [a])[|lines + [a]| - 1] == a
    ensures lines + [a] + [b] != [] && (lines + [a] + [b])[|lines + [a] + [b]| - 1] == b
  {}

  lemma StartPortLines(started: bool, idle: Port, start: Port, stop: Port)
    requires I2cLines(idle, start, stop)
    ensures PortLines(StartPorts(I2c, started, idle, start))
      == if started then [Line(false, true), HIGH, HELD] else [HELD]
  {
    hide StartPorts;
    StartSequence(I2c, started, idle, start);
  }

  // Start ends in a start condition, if it is a repeated one or the lines are high, and there is
  // no other condition before or without that.
  lemma I2cStarts(lines: seq<Line>, started: bool, idle: Port, start: Port, stop: Port)
    requires I2cLines(idle, start, stop) && lines != []
    ensures var more := PortLines(StartPorts(I2c, started, idle, start));
      && more != [] && more[|more| - 1] == HELD
      && Conditions(lines + more)
        == Conditions(lines) + if started || lines[|lines| - 1] == HIGH then [StartBit] else []
  {
    hide Conditions, StartPorts, PortLines;
    StartPortLines(started, idle, start, stop);
    if started {
      ThreeLines(lines, Line(false, true), HIGH, HELD);
      OnlyLast(Conditions(lines), [StartBit]);
    } else {
      OneLine(lines, HELD);
    }
  }

  lemma OnlyLast(a: seq<Condition>, b: seq<Condition>)
    ensures a + [] + [] + b == a + b && a + [] == a
  {}

  lemma StopKeeps(log: seq<Event>, started: bool, idle: Port, start: Port, stop: Port, tris: Port, results: seq<bool>)
    requires Settled(log, started, idle, start, stop)
    ensures var ports := StopPorts(I2c, idle, stop);
      var all := if PortsOk(ports, results) then ports + [idle] else ports;
      Settled(log + [Ended] + SendPorts(all, tris, results), false, idle, start, stop)
  {
    hide Bus, AllTaken, StartedAt, Expected, Framing, Calm, LeftBy, Conditions, SendPorts, StopPorts,
      PortLines, PortsOk;
    var ports := StopPorts(I2c, idle, stop);
    var all := if PortsOk(ports, results) then ports + [idle] else ports;
    PortsSent(ports, tris, results);
    PortsSent(all, tris, results);
    Mark(log, Ended);
    Buffers(log + [Ended], SendPorts(all, tris, results));
    if AllTaken(log) {
      I2cStops(Bus(log), idle, start, stop);
    }
  }

  lemma StopPortLines(idle: Port, start: Port, stop: Port)
    requires I2cLines(idle, start, stop)
    ensures PortLines(StopPorts(I2c, idle, stop) + [idle]) == [Line(false, false), HELD, HIGH]
  {
    hide StopPorts;
    StopSequence(I2c, idle, stop);
  }

  // Stop ends in a stop condition, whatever the lines are like, and there is none before.
  lemma I2cStops(lines: seq<Line>, idle: Port, start: Port, stop: Port)
    requires I2cLines(idle, start, stop) && lines != []
    ensures var more := PortLines(StopPorts(I2c, idle, stop) + [idle]);
      && more != [] && more[|more| - 1] == HIGH
      && Conditions(lines + more) == Conditions(lines) + [StopBit]
  {
    hide Conditions, StopPorts, PortLines;
    StopPortLines(idle, start, stop);
    ThreeLines(lines, Line(false, false), HELD, HIGH);
    OnlyLast(Conditions(lines), [StopBit]);
  }

  // A low GPIO pin: idle, start and stop have the pin set, and the start state is sent.
  lemma LevelKeeps(log: seq<Event>, idle: Port, start: Port, stop: Port, g: Levels, pin: nat, high: bool,
    tris: Port, ok: bool)
    requires Settled(log, false, idle, start, stop)
    ensures Settled(log + [Level(pin, high)] + [Sent(LowBuffer(start.(gpio := g), tris), ok)], false,
      idle.(gpio := g), start.(gpio := g), stop.(gpio := g))
  {
    hide Bus, AllTaken, StartedAt, Expected, Framing, Calm, LeftBy, Conditions, LowBuffer, LinesIn;
    Mark(log, Level(pin, high));
    OneBuffer(log + [Level(pin, high)], Sent(LowBuffer(start.(gpio := g), tris), ok));
    LowBufferLine(start.(gpio := g), tris);
    OneLine(Bus(log), HELD);
  }

  // A buffer that does not set the low pins
  lemma SilentKeeps(log: seq<Event>, started: bool, idle: Port, start: Port, stop: Port, buffer: Bytes, ok: bool)
    requires Settled(log, started, idle, start, stop) && LinesIn(buffer) == []
    ensures Settled(log + [Sent(buffer, ok)], started, idle, start, stop)
  {
    hide Bus, AllTaken, StartedAt, Expected, Framing, Calm, LeftBy, Conditions, LinesIn;
    OneBuffer(log, Sent(buffer, ok));
    assert Bus(log) + [] == Bus(log);
  }

  lemma ClockKeeps(log: seq<Event>, started: bool, idle: Port, start: Port, stop: Port, freq: nat, results: seq<bool>)
    requires Settled(log, started, idle, start, stop)
    ensures Settled(log + SendUntil(ClockBuffers(freq), results), started, idle, start, stop)
  {
    hide Settled, LinesIn, SendUntil, First, Rest;
    var buffers := ClockBuffers(freq);
    ClockSilent(freq);
    TwoSent(buffers, log, results);
    SilentKeeps(log, started, idle, start, stop, buffers[0], First(results));
    if First(results) {
      SilentKeeps(log + [Sent(buffers[0], true)], started, idle, start, stop, buffers[1], First(Rest(results)));
    }
  }

  lemma ClockSilent(freq: nat)
    ensures var buffers := ClockBuffers(freq); |buffers| == 2 && LinesIn(buffers[0]) == LinesIn(buffers[1]) == []
  {
    hide LinesIn, DivisorFor;
    var buffers := ClockBuffers(freq);
    SilentBuffer(Single(buffers[0][0]));
    SilentBuffer(Divisor(buffers[1][1], buffers[1][2]));
  }

  lemma PairSilent(a: Byte, b: Byte)
    requires SingleCode(a) && SingleCode(b)
    ensures LinesIn([a, b]) == []
  {
    var ops := [Single(a)] + [Single(b)];
    PairDecoded(a, b);
    assert ops[1..] == [Single(b)] && LinesOf([Single(b)]) == [] && ops[0] == Single(a);
    assert LinesOf(ops) == [] + LinesOf(ops[1..]);
  }

  // The set-up of SetMode leaves the lines high.
  lemma SetupBus(idle: Port, tris: Port, results: seq<bool>)
    ensures var more := SetupEvents(I2c, idle, tris, results);
      OnlySent(more) && (AllTaken(more) ==> Bus(more) == [LineOf(idle)])
  {
    hide LinesIn, LowBuffer, Bus, AllTaken, First, Rest, StartedAt, Expected, Framing, Calm, LeftBy;
    var e1, e2, e3 := Sent(SetupBuffer(I2c), First(results)), Sent(LowBuffer(idle, tris), First(Rest(results))),
      Sent([SET_BITS_HIGH, 0, 0xFF], First(Rest(Rest(results))));
    PairSilent(DISABLE_ADAPTIVE_CLOCK, ENABLE_3_PHASE_CLOCK);
    LowBufferLine(idle, tris);
    SilentBuffer(SetHigh(0, 0xFF));
    SetupUnfold([], I2c, idle, tris, results);
    assert [] + SetupEvents(I2c, idle, tris, results) == SetupEvents(I2c, idle, tris, results);
    NothingLogged();
    OneBuffer([], e1);
    OneBuffer([] + [e1], e2);
    OneBuffer([] + [e1] + [e2], e3);
  }

  lemma ModeKeeps(log: seq<Event>, lsb: bool, started: bool, idle: Port, start: Port, stop: Port, tris: Port, ok: bool,
    results: seq<bool>)
    requires Settled(log, started, idle, start, stop)
    ensures var pins := ModePins(I2c);
      Settled(log + [Reset(lsb)] + [Sent([LOOPBACK_END], ok)] + SetupEvents(I2c, pins.idle, tris, results),
        started, pins.idle, pins.start, pins.stop)
  {
    hide Bus, AllTaken, StartedAt, Expected, Framing, Calm, LeftBy, Conditions, LinesIn, SetupEvents;
    var pins := ModePins(I2c);
    var loopback := Sent([LOOPBACK_END], ok);
    SetupBus(pins.idle, tris, results);
    Mark(log, Reset(lsb));
    OneBuffer(log + [Reset(lsb)], loopback);
    SilentBuffer(Single(LOOPBACK_END));
    Buffers(log + [Reset(lsb)] + [loopback], SetupEvents(I2c, pins.idle, tris, results));
    OneLine(Bus(log), HIGH);
    assert Bus(log) + [] == Bus(log);
  }

  // The context that OpenIndex leaves
  lemma OpeningSettles(freq: nat, lsb: bool, answers: seq<bool>, tris: Port, results: seq<bool>)
    ensures var pins := ModePins(I2c);
      Settled([] + SendUntil(ClockBuffers(freq), answers) + [Reset(lsb)] + SetupEvents(I2c, pins.idle, tris, results),
        false, pins.idle, pins.start, pins.stop)
  {
    hide Bus, AllTaken, StartedAt, Expected, Framing, Calm, LeftBy, LinesIn, SetupEvents, SendUntil, ClockBuffers;
    var pins, clock := ModePins(I2c), SendUntil(ClockBuffers(freq), answers);
    ClockBus(freq, answers);
    SetupBus(pins.idle, tris, results);
    NothingExpected();
    Buffers([], clock);
    Mark([] + clock, Reset(lsb));
    Buffers([] + clock + [Reset(lsb)], SetupEvents(I2c, pins.idle, tris, results));
  }

  lemma ClockBus(freq: nat, results: seq<bool>)
    ensures OnlySent(SendUntil(ClockBuffers(freq), results)) && Bus(SendUntil(ClockBuffers(freq), results)) == []
  {
    hide LinesIn, Bus, AllTaken, First, Rest, StartedAt, Expected, Framing, Calm, LeftBy, SendUntil, ClockBuffers;
    var buffers := ClockBuffers(freq);
    ClockSilent(freq);
    TwoSent(buffers, [], results);
    assert [] + SendUntil(buffers, results) == SendUntil(buffers, results);
    NothingLogged();
    var e1, e2 := Sent(buffers[0], First(results)), Sent(buffers[1], First(Rest(results)));
    OneBuffer([], e1);
    OneBuffer([] + [e1], e2);
  }

  lemma NothingExpected()
    ensures Expected([]) == [] && Framing([]) == [] && Calm([]) && !StartedAt([]) && Bus([]) == []
      && LeftBy([]) == Nothing
  {}

  // SetCSIdle
  lemma SelectSettles(log: seq<Event>, started: bool, idle: Port, start: Port, stop: Port, high: bool)
    requires Settled(log, started, idle, start, stop)
    ensures Settled(log + [Idles(high)], started, idle.(cs := high), start.(cs := !high), stop.(cs := high))
  {
    hide Bus, AllTaken, StartedAt, Expected, Framing, Calm, LeftBy, Conditions;
    Mark(log, Idles(high));
    NothingElse(Expected(log));
  }

  lemma NothingElse(c: seq<Condition>)
    ensures c + [] == c
  {}

  // On an idle bus, writing a low GPIO pin makes a start condition, and the Start that follows
  // makes none.
  lemma GpioStartsInstead(log: seq<Event>, idle: Port, start: Port, stop: Port, g: Levels, pin: nat, high: bool,
                          tris: Port, results: seq<bool>)
    requires Settled(log, false, idle, start, stop) && AllTaken(log) && LeftBy(log).Idle?
    ensures var written := log + [Level(pin, high)] + [Sent(LowBuffer(start.(gpio := g), tris), true)];
      var ports := StartPorts(I2c, false, idle.(gpio := g), start.(gpio := g));
      && Conditions(Bus(written)) == Conditions(Bus(log)) + [StartBit]
      && (PortsOk(ports, results) ==>
        Conditions(Bus(written + [Begun] + SendPorts(ports, tris, results))) == Conditions(Bus(written)))
  {
    hide Bus, AllTaken, StartedAt, Expected, Framing, Calm, LeftBy, Conditions, LowBuffer, LinesIn, SendPorts,
      StartPorts, PortsOk, PortLines;
    var sent := Sent(LowBuffer(start.(gpio := g), tris), true);
    var written := log + [Level(pin, high)] + [sent];
    var ports := StartPorts(I2c, false, idle.(gpio := g), start.(gpio := g));
    LevelKeeps(log, idle, start, stop, g, pin, high, tris, true);
    Mark(log, Level(pin, high));
    OneBuffer(log + [Level(pin, high)], sent);
    LowBufferLine(start.(gpio := g), tris);
    PortsSent(ports, tris, results);
    Mark(written, Begun);
    Buffers(written + [Begun], SendPorts(ports, tris, results));
    I2cStarts(Bus(written), false, idle.(gpio := g), start.(gpio := g), stop.(gpio := g));
  }

  // So it is on the bus that opening the context leaves.
  lemma GpioAfterOpening(freq: nat, lsb: bool, answers: seq<bool>, replies: seq<bool>, tris: Port, g: Levels,
    pin: nat, high: bool,
                         results: seq<bool>)
    requires Succeeds(ClockBuffers(freq), answers)
    requires First(replies) && First(Rest(replies)) && First(Rest(Rest(replies)))
    ensures var pins := ModePins(I2c);
      var log := [] + SendUntil(ClockBuffers(freq), answers) + [Reset(lsb)]
        + SetupEvents(I2c, pins.idle, tris, replies);
      var written := log + [Level(pin, high)] + [Sent(LowBuffer(pins.start.(gpio := g), tris), true)];
      var ports := StartPorts(I2c, false, pins.idle.(gpio := g), pins.start.(gpio := g));
      && AllTaken(log) && Conditions(Bus(log)) == []
      && Conditions(Bus(written)) == [StartBit]
      && (PortsOk(ports, results) ==>
        Conditions(Bus(written + [Begun] + SendPorts(ports, tris, results))) == [StartBit])
  {
    hide *;
    var pins := ModePins(I2c);
    OpeningSettles(freq, lsb, answers, tris, replies);
    OpeningTaken(freq, lsb, answers, replies, pins.idle, tris);
    OpeningIdle(freq, lsb, answers, replies, tris);
    SettledConditions(
      [] + SendUntil(ClockBuffers(freq), answers) + [Reset(lsb)] + SetupEvents(I2c, pins.idle, tris, replies),
      pins.idle, pins.start, pins.stop);
    GpioStartsInstead(
      [] + SendUntil(ClockBuffers(freq), answers) + [Reset(lsb)] + SetupEvents(I2c, pins.idle, tris, replies),
      pins.idle, pins.start, pins.stop, g, pin, high, tris, results);
    assert [] + [StartBit] == [StartBit];
  }

  lemma SettledConditions(log: seq<Event>, idle: Port, start: Port, stop: Port)
    requires Settled(log, false, idle, start, stop) && AllTaken(log)
    ensures Conditions(Bus(log)) == Expected(log)
  {}

  lemma OpeningTaken(freq: nat, lsb: bool, answers: seq<bool>, replies: seq<bool>, idle: Port, tris: Port)
    requires Succeeds(ClockBuffers(freq), answers)
    requires First(replies) && First(Rest(replies)) && First(Rest(Rest(replies)))
    ensures AllTaken([] + SendUntil(ClockBuffers(freq), answers) + [Reset(lsb)] + SetupEvents(I2c, idle, tris, replies))
  {
    hide First, Rest, LowBuffer, ClockBuffers;
    TwoBuffers(freq);
    TwoSent(ClockBuffers(freq), [], answers);
  }

  lemma TwoBuffers(freq: nat)
    ensures |ClockBuffers(freq)| == 2
  {}

  lemma OpeningIdle(freq: nat, lsb: bool, answers: seq<bool>, replies: seq<bool>, tris: Port)
    ensures var log := [] + SendUntil(ClockBuffers(freq), answers) + [Reset(lsb)]
      + SetupEvents(I2c, ModePins(I2c).idle, tris, replies);
      LeftBy(log).Idle? && Expected(log) == []
  {
    hide Bus, AllTaken, StartedAt, Expected, Framing, Calm, LeftBy, LinesIn, SetupEvents, SendUntil, ClockBuffers;
    ClockBus(freq, answers);
    SetupBus(ModePins(I2c).idle, tris, replies);
    NothingExpected();
    Buffers([], SendUntil(ClockBuffers(freq), answers));
    Mark([] + SendUntil(ClockBuffers(freq), answers), Reset(lsb));
    Buffers([] + SendUntil(ClockBuffers(freq), answers) + [Reset(lsb)],
      SetupEvents(I2c, ModePins(I2c).idle, tris, replies));
  }
}
