/**
  The data line during the transfers of an I2C context, as the chip works it: who drives the line,
  and what for. src/libmpsse/support.c.
*/
module MpsseSlots {
  import opened Common
  import opened MpsseStream

  // A clocking command: bits sent, or a number of bits read, and whether the chip's data out pin
  // drives the line meanwhile
  datatype Slot = Out(bits: seq<bool>, driven: bool) | In(count: nat, driven: bool)

  function SlotOf(op: Op, driven: bool): seq<Slot> {
    if !op.Clock? then []
    else if op.cmd.write then [Out(BitsOf(op), driven)]
    else [In(if op.cmd.bit then op.count else 8 * op.count, driven)]
  }

  // The data out pin is bit 1 of the low pins.
  function Driven(op: Op, driven: bool): bool {
    if op.SetLow? then BitAt(op.direction, 1) else driven
  }

  function Slots(ops: seq<Op>, driven: bool): seq<Slot> {
    if ops == [] then [] else SlotOf(ops[0], driven) + Slots(ops[1..], Driven(ops[0], driven))
  }

  function DrivenAfter(ops: seq<Op>, driven: bool): bool {
    if ops == [] then driven else DrivenAfter(ops[1..], Driven(ops[0], driven))
  }

  lemma {:induction false} SlotsConcat(a: seq<Op>, b: seq<Op>, driven: bool)
    ensures Slots(a + b, driven) == Slots(a, driven) + Slots(b, DrivenAfter(a, driven))
  {
    hide SlotOf, Driven;
    if a == [] {
      assert a + b == b;
    } else {
      SlotsConcat(a[1..], b, Driven(a[0], driven));
      assert (a + b)[1..] == a[1..] + b && (a + b)[0] == a[0];
    }
  }

  lemma OneMore(a: Op, ops: seq<Op>, driven: bool)
    ensures Slots([a] + ops, driven) == SlotOf(a, driven) + Slots(ops, Driven(a, driven))
  {}

  lemma NoSlots(driven: bool)
    ensures Slots([], driven) == []
  {}

  // The start of a block and its end each set the pins first.
  lemma FourOps(a: Op, b: Op, c: Op, d: Op, driven: bool)
    requires a.SetLow? && b.Clock? && c.SetLow?
    ensures Slots([a, b, c, d], driven) == SlotOf(b, BitAt(a.direction, 1)) + SlotOf(d, BitAt(c.direction, 1))
  {
    hide BitAt, Slots;
    var low := BitAt(a.direction, 1);
    assert [a] + [b, c, d] == [a, b, c, d] && [b] + [c, d] == [b, c, d] && [c] + [d] == [c, d] && [d] + [] == [d];
    OneMore(a, [b, c, d], driven);
    OneMore(b, [c, d], low);
    OneMore(c, [d], low);
    OneMore(d, [], BitAt(c.direction, 1));
    NoSlots(Driven(d, BitAt(c.direction, 1)));
  }

  // ---- Writing ----

  // A byte sent: its bits, driven, and then one bit read with the line released
  function SentSlots(lsb: bool, data: Bytes): (slots: seq<Slot>)
    ensures |slots| == 2 * |data|
  {
    if data == [] then [] else [Out(LineBits(lsb, 8, data[0]), true), In(1, false)] + SentSlots(lsb, data[1..])
  }

  lemma WrittenByte(cfg: Settings, b: Byte, driven: bool)
    requires Sane(cfg) && cfg.mode.I2c? && !cfg.tx.bit && cfg.tris.do
    ensures Slots(Block(cfg, cfg.tx, [b], 1), driven) == SentSlots(cfg.tx.lsb, [b])
  {
    hide PortByte, BitsOf, LineBits, Slots;
    var ops, end := Block(cfg, cfg.tx, [b], 1), BlockEnd(cfg, cfg.tx);
    var start, op := BlockStart(cfg, cfg.tx)[0], Clock(cfg.tx, 1, [b]);
    FiveOps(start, op, end[0], end[1], end[2], driven);
    assert ops == [start, op, end[0], end[1], end[2]];
    PortBits(cfg.tris);
    PortBits(cfg.tris.(do := false));
    OneByte(cfg.tx, b);
  }

  lemma FiveOps(a: Op, b: Op, c: Op, d: Op, e: Op, driven: bool)
    requires a.SetLow? && b.Clock? && c.SetLow? && d.Clock? && e.Single?
    ensures Slots([a, b, c, d, e], driven) == SlotOf(b, BitAt(a.direction, 1)) + SlotOf(d, BitAt(c.direction, 1))
  {
    hide BitAt, Slots;
    var later := BitAt(c.direction, 1);
    assert [a, b, c, d] + [e] == [a, b, c, d, e] && [e] + [] == [e];
    SlotsConcat([a, b, c, d], [e], driven);
    FourOps(a, b, c, d, driven);
    OneMore(e, [], DrivenAfter([a, b, c, d], driven));
    NoSlots(Driven(e, DrivenAfter([a, b, c, d], driven)));
  }

  lemma OneByte(cmd: Command, b: Byte)
    requires cmd.write && !cmd.bit
    ensures BitsOf(Clock(cmd, 1, [b])) == LineBits(cmd.lsb, 8, b) && SentSlots(cmd.lsb, []) == []
  {
    hide LineBits;
    assert [b][1..] == [] && ByteBits(cmd.lsb, []) == [];
  }

  lemma {:induction false} WrittenBlocks(cfg: Settings, data: Bytes, driven: bool)
    requires Sane(cfg) && cfg.mode.I2c? && !cfg.tx.bit && cfg.tris.do
    ensures Slots(WriteBlocks(cfg, cfg.tx, data), driven) == SentSlots(cfg.tx.lsb, data)
  {
    hide Block, Slots, DrivenAfter;
    if data == [] {
      NoSlots(driven);
    } else {
      var first, rest := Block(cfg, cfg.tx, data[..1], 1), WriteBlocks(cfg, cfg.tx, data[1..]);
      assert data[..1] == [data[0]];
      SlotsConcat(first, rest, driven);
      WrittenByte(cfg, data[0], driven);
      WrittenBlocks(cfg, data[1..], DrivenAfter(first, driven));
      OneSent(cfg.tx.lsb, data[0]);
    }
  }

  lemma OneSent(lsb: bool, b: Byte)
    ensures SentSlots(lsb, [b]) == [Out(LineBits(lsb, 8, b), true), In(1, false)]
  {
    hide LineBits;
    assert [b][1..] == [] && SentSlots(lsb, []) == [];
  }

  lemma {:induction false} WrittenPlan(cfg: Settings, data: Bytes, driven: bool)
    requires Sane(cfg) && cfg.mode.I2c? && !cfg.tx.bit && cfg.tris.do
    ensures Slots(PlanOps(cfg, data), driven) == SentSlots(cfg.tx.lsb, data)
  {
    hide WriteBlocks, Slots, DrivenAfter;
    if data == [] {
      NoSlots(driven);
    } else {
      var first, rest := WriteBlocks(cfg, cfg.tx, data[..1]), PlanOps(cfg, data[1..]);
      assert data[..1] == [data[0]];
      SlotsConcat(first, rest, driven);
      WrittenBlocks(cfg, data[..1], driven);
      WrittenPlan(cfg, data[1..], DrivenAfter(first, driven));
      OneSent(cfg.tx.lsb, data[0]);
    }
  }

  // Decoded by the chip, a Write on I2C drives the bits of each byte, and releases the line for
  // one acknowledgement bit after each.
  lemma I2cWriteSlots(cfg: Settings, data: Bytes, driven: bool)
    requires Sane(cfg) && cfg.mode.I2c? && !cfg.tx.bit && cfg.tris.do
    ensures var r := Decode(Flatten(WritePlan(cfg, data)));
      r.Some? && Slots(r.value, driven) == SentSlots(cfg.tx.lsb, data)
  {
    PlanIsItsOps(cfg, data);
    DecodeEncoded(PlanOps(cfg, data));
    WrittenPlan(cfg, data, driven);
  }

  // ---- Reading ----

  // A byte read with the line released, and then one bit sent, driven
  function ReadSlots(ack: bool, size: nat): (slots: seq<Slot>)
    ensures |slots| == 2 * size
  {
    if size == 0 then [] else [In(8, false), Out([ack], true)] + ReadSlots(ack, size - 1)
  }

  // SetAck makes the bit a high one for a refusal, and a low one for an acknowledgement.
  predicate AckByte(tack: Byte) {
    tack in {0x00, 0xFF}
  }

  lemma ReadByte(cfg: Settings, driven: bool)
    requires Sane(cfg) && cfg.mode.I2c? && !cfg.rx.bit && cfg.tris.do && AckByte(cfg.tack)
    ensures Slots(Block(cfg, cfg.rx, [], 1), driven) == [In(8, false), Out([cfg.tack == 0xFF], true)]
  {
    hide PortByte, BitsOf, Slots;
    var end := BlockEnd(cfg, cfg.rx);
    var start, op := BlockStart(cfg, cfg.rx)[0], Clock(cfg.rx, 1, []);
    FourOps(start, op, end[0], end[1], driven);
    assert Block(cfg, cfg.rx, [], 1) == [start, op, end[0], end[1]];
    PortBits(cfg.tris);
    PortBits(cfg.tris.(do := false));
    ClockedBit(cfg.tx.(bit := true), cfg.tack == 0xFF);
  }

  lemma {:induction false} ReadBlocksSlots(cfg: Settings, blocks: nat, driven: bool)
    requires Sane(cfg) && cfg.mode.I2c? && !cfg.rx.bit && cfg.tris.do && AckByte(cfg.tack)
    ensures Slots(ReadBlocks(cfg, 1, blocks), driven) == ReadSlots(cfg.tack == 0xFF, blocks)
  {
    hide Block, Slots, DrivenAfter;
    if blocks == 0 {
      NoSlots(driven);
    } else {
      var first := Block(cfg, cfg.rx, [], 1);
      SlotsConcat(first, ReadBlocks(cfg, 1, blocks - 1), driven);
      ReadByte(cfg, driven);
      ReadBlocksSlots(cfg, blocks - 1, DrivenAfter(first, driven));
    }
  }

  // What build_block_buffer compiles a read of so many bytes to: each byte with the line
  // released, and each acknowledged with the bit that was set.
  lemma I2cReadSlots(cfg: Settings, data: Bytes, driven: bool)
    requires Sane(cfg) && cfg.mode.I2c? && !cfg.rx.bit && cfg.tris.do && AckByte(cfg.tack)
    ensures Slots(BlockOps(cfg, cfg.rx, data), driven) == ReadSlots(cfg.tack == 0xFF, |data|)
  {
    hide ReadBlocks, Slots;
    if data == [] {
      SmallDiv(0, 1);
      NothingRead(cfg, driven);
    } else {
      assert NumBlocks(|data|, 1) == |data|;
      ReadBlocksSlots(cfg, |data|, driven);
    }
  }

  lemma NothingRead(cfg: Settings, driven: bool)
    ensures Slots(ReadBlocks(cfg, 0, 0), driven) == []
  {}
}
