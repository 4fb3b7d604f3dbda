/**
  The clock of the chip, worked out from the buffers it takes, against the one the context of
  libmpsse reports. src/libmpsse/mpsse.c.
*/
module MpsseRate {
  import opened Common
  import opened MpsseClock
  import opened MpsseStream
  import opened MpsseTrace

  // The chip's clock generator: its base clock, 0 until one is selected, the divisor, and the
  // base clock for which the divisor was last set
  datatype Generator = Generator(base: nat, divisor: nat, divided: nat)

  const UNSET := Generator(0, 0, 0)

  function Turned(c: Generator, op: Op): Generator {
    match op
    case Single(code) =>
      if code == 0x8A then c.(base := 60_000_000) else if code == 0x8B then c.(base := 12_000_000) else c
    case Divisor(low, high) => c.(divisor := low + 256 * high, divided := c.base)
    case _ => c
  }

  function TurnedBy(c: Generator, ops: seq<Op>): Generator
    decreases |ops|
  {
    if ops == [] then c else TurnedBy(Turned(c, ops[0]), ops[1..])
  }

  function TurnedIn(c: Generator, buffer: Bytes): Generator {
    match Decode(buffer)
    case None => c
    case Some(ops) => TurnedBy(c, ops)
  }

  // What the buffers that the device took have made of it
  function ClockAfter(log: seq<Event>): Generator {
    if log == [] then UNSET else
    var c, e := ClockAfter(log[..|log| - 1]), log[|log| - 1];
    if e.Sent? && e.ok then TurnedIn(c, e.buffer) else c
  }

  // The clock that a base clock and a divisor give
  function Rate(base: nat, divisor: nat): nat {
    Quotient(base, (1 + divisor) * 2)
  }

  // The clock reported is that of the divisor last set, and as long as the device takes every
  // buffer the base clock is the one it was set for.
  predicate InStep(log: seq<Event>, clock: nat) {
    var c := ClockAfter(log);
    clock == Rate(c.divided, c.divisor) && (AllTaken(log) ==> c.base == c.divided)
  }

  // ---- What leaves the clock alone ----

  predicate SetsClock(op: Op) {
    op.Divisor? || (op.Single? && op.code in {TCK_X5, TCK_D5})
  }

  predicate OpsSteady(ops: seq<Op>) {
    forall i :: 0 <= i < |ops| ==> !SetsClock(ops[i])
  }

  predicate Steady(buffer: Bytes) {
    Decode(buffer).Some? && OpsSteady(Decode(buffer).value)
  }

  lemma {:induction false} SteadyTurns(c: Generator, ops: seq<Op>)
    requires OpsSteady(ops)
    ensures TurnedBy(c, ops) == c
  {
    if ops != [] {
      SteadyTurns(c, ops[1..]);
    }
  }

  lemma EncodedSteady(ops: seq<Op>)
    requires AllProper(ops) && OpsSteady(ops)
    ensures Steady(EncodeAll(ops))
  {
    DecodeEncoded(ops);
  }

  lemma SingleSteady(op: Op)
    requires Proper(op) && !SetsClock(op)
    ensures Steady(Encode(op))
  {
    OneEncoded(op);
    EncodedSteady([op]);
  }

  lemma OneMoreEvent(log: seq<Event>, e: Event)
    ensures ClockAfter(log + [e]) == if e.Sent? && e.ok then TurnedIn(ClockAfter(log), e.buffer) else ClockAfter(log)
    ensures AllTaken(log + [e]) <==> AllTaken(log) && (e.Sent? ==> e.ok)
  {
    hide TurnedIn;
    assert (log + [e])[..|log|] == log && (log + [e])[|log|] == e;
    assert forall i :: 0 <= i < |log| ==> (log + [e])[i] == log[i];
  }

  lemma StaysInStep(log: seq<Event>, e: Event, clock: nat)
    requires InStep(log, clock) && (e.Sent? ==> Steady(e.buffer))
    ensures InStep(log + [e], clock)
  {
    hide Decode, Rate, ClockAfter, AllTaken;
    OneMoreEvent(log, e);
    if e.Sent? {
      SteadyTurns(ClockAfter(log), Decode(e.buffer).value);
    }
  }

  // ---- Setting the clock ----

  lemma OneTurn(c: Generator, op: Op)
    requires Proper(op)
    ensures TurnedIn(c, Encode(op)) == Turned(c, op)
  {
    OneEncoded(op);
    DecodeEncoded([op]);
    assert [op][1..] == [] && TurnedBy(Turned(c, op), []) == Turned(c, op);
  }

  // The first command has been taken, and the second perhaps.
  lemma ClockSet(log: seq<Event>, freq: nat, ok: bool, clock: nat)
    requires InStep(log, clock)
    ensures var buffers := ClockBuffers(freq);
      var selected := log + [Sent(buffers[0], true)];
      && |buffers| == 2
      && ClockAfter(selected + [Sent(buffers[1], true)])
        == Generator(SystemClock(freq), DivisorFor(freq), SystemClock(freq))
      && ClockAfter(selected + [Sent(buffers[1], false)]) == ClockAfter(log).(base := SystemClock(freq))
      && InStep(selected + [Sent(buffers[1], ok)], if ok then Achieved(freq) else clock)
  {
    hide ClockAfter, AllTaken, Encode, TurnedIn, DivisorFor;
    var buffers := ClockBuffers(freq);
    var selected := log + [Sent(buffers[0], true)];
    Commands(freq);
    OneMoreEvent(log, Sent(buffers[0], true));
    OneMoreEvent(selected, Sent(buffers[1], ok));
    OneMoreEvent(selected, Sent(buffers[1], true));
    OneMoreEvent(selected, Sent(buffers[1], false));
    var c, div := ClockAfter(log), DivisorFor(freq);
    OneTurn(c, Single(buffers[0][0]));
    OneTurn(c.(base := SystemClock(freq)), Divisor(div % 256, div / 256));
  }

  lemma Commands(freq: nat)
    ensures var buffers, div := ClockBuffers(freq), DivisorFor(freq);
      && |buffers| == 2 && |buffers[0]| == 1 && buffers[0] == Encode(Single(buffers[0][0]))
      && div / 256 < 256 && buffers[1] == Encode(Divisor(div % 256, div / 256)) && Proper(Single(buffers[0][0]))
      && forall c: Generator :: Turned(c, Single(buffers[0][0])) == c.(base := SystemClock(freq))
  {
    hide DivisorFor;
  }

  lemma NotSelected(log: seq<Event>, freq: nat, clock: nat)
    requires InStep(log, clock)
    ensures InStep(log + [Sent(ClockBuffers(freq)[0], false)], clock)
  {
    hide ClockAfter, AllTaken;
    OneMoreEvent(log, Sent(ClockBuffers(freq)[0], false));
  }

  // A SetClock of which the device takes only the first command leaves another clock than the one
  // reported: 30 MHz where it was, and is still said to be, 6 MHz.
  lemma TornClock()
    ensures var log := [Sent([0x8B], true), Sent([0x86, 0, 0], true), Sent([0x8A], true), Sent([0x86, 0, 0], false)];
      var c := ClockAfter(log);
      && ClockBuffers(6_000_000) == [[0x8B], [0x86, 0, 0]] && ClockBuffers(30_000_000) == [[0x8A], [0x86, 0, 0]]
      && Rate(c.base, c.divisor) == 30_000_000 && Rate(c.divided, c.divisor) == 6_000_000
  {
    hide *;
    var first := [Sent([0x8B], true), Sent([0x86, 0, 0], true)];
    assert [] + [Sent([0x8B], true)] + [Sent([0x86, 0, 0], true)] == first;
    assert first + [Sent([0x8A], true)] + [Sent([0x86, 0, 0], false)]
      == [Sent([0x8B], true), Sent([0x86, 0, 0], true), Sent([0x8A], true), Sent([0x86, 0, 0], false)];
    NoEvents();
    SixAndThirty();
    ClockSet([], 6_000_000, true, 0);
    ClockSet(first, 30_000_000, false, Achieved(6_000_000));
  }

  lemma SixAndThirty()
    ensures ClockBuffers(6_000_000) == [[0x8B], [0x86, 0, 0]] && ClockBuffers(30_000_000) == [[0x8A], [0x86, 0, 0]]
    ensures DivisorFor(6_000_000) == 0 && SystemClock(6_000_000) == 12_000_000 && SystemClock(30_000_000) == 60_000_000
    ensures Rate(60_000_000, 0) == 30_000_000 && Rate(12_000_000, 0) == 6_000_000
  {}

  lemma NoEvents()
    ensures ClockAfter([]) == Generator(0, 0, 0) && InStep([], 0)
  {}

  // Over every run, the chip runs at the clock reported exactly if its base clock is the one that
  // the divisor was set for, and so it is if the device took every buffer.
  lemma RateExact(log: seq<Event>, clock: nat)
    requires InStep(log, clock)
    ensures var c := ClockAfter(log);
      && (Rate(c.base, c.divisor) == clock <==> c.base == c.divided)
      && (AllTaken(log) ==> Rate(c.base, c.divisor) == clock)
  {
    hide Rate, ClockAfter, AllTaken;
    Possible(log);
    Bounds(ClockAfter(log).divisor);
  }

  predicate Proportionate(c: Generator) {
    c.base in {0, 12_000_000, 60_000_000} && c.divided in {0, 12_000_000, 60_000_000} && c.divisor < 0x1_0000
  }

  lemma {:induction false} Possible(log: seq<Event>)
    ensures Proportionate(ClockAfter(log))
  {
    hide Proportionate;
    NothingTurned();
    if log != [] {
      var c, e := ClockAfter(log[..|log| - 1]), log[|log| - 1];
      Possible(log[..|log| - 1]);
      if e.Sent? && Decode(e.buffer).Some? {
        TurnsPossible(c, Decode(e.buffer).value);
      }
    }
  }

  lemma NothingTurned()
    ensures Proportionate(UNSET)
  {}

  lemma {:induction false} TurnsPossible(c: Generator, ops: seq<Op>)
    requires Proportionate(c)
    ensures Proportionate(TurnedBy(c, ops))
    decreases |ops|
  {
    if ops != [] {
      TurnsPossible(Turned(c, ops[0]), ops[1..]);
    }
  }

  // A clock from the faster base is more than four times as fast, and none is 0.
  lemma Bounds(divisor: nat)
    requires divisor < 0x1_0000
    ensures 0 == Rate(0, divisor) < Rate(12_000_000, divisor) < Rate(60_000_000, divisor)
  {
    var d := (1 + divisor) * 2;
    var x := 12_000_000 / d;
    DivAtLeast(12_000_000, d, 1);
    DivAtLeast(12_000_000, d, x);
    assert (x + 1) * d == x * d + d;
    DivAtLeast(60_000_000, d, x + 1);
    DivAtLeast(0, d, 1);
  }
}
