/** The buffers of a transfer, built in place: src/libmpsse/support.c and src/libmpsse/fast.c. */
module MpsseBlocks {
  import opened Common
  import opened MpsseStream

  // Bytes put behind those already in the buffer
  method Put(buf: array<Byte>, i: nat, s: Bytes, ghost done: Bytes) returns (i': nat)
    requires i == |done| && i + |s| <= buf.Length && buf[..i] == done
    modifies buf
    ensures i' == i + |s| && buf[..i'] == done + s
  {
    forall k | 0 <= k < |s| {
      buf[i + k] := s[k];
    }
    i' := i + |s|;
    assert forall k :: 0 <= k < |s| ==> buf[i + k] == s[k];
    assert forall k :: 0 <= k < i ==> buf[k] == done[k];
  }

  // What is still to be written when k bytes of data are done and so many blocks remain
  function Remaining(cfg: Settings, cmd: Command, data: Bytes, k: nat, blocks: nat): seq<Op>
    requires Sane(cfg) && k <= |data|
  {
    if cmd == cfg.rx then ReadBlocks(cfg, Min(XferSize(cfg, cmd), |data|), blocks) else WriteBlocks(cfg, cmd, data[k..])
  }

  // The data bytes of the next block
  function NextData(cfg: Settings, cmd: Command, data: Bytes, k: nat): Bytes
    requires Sane(cfg) && k <= |data|
  {
    if cmd == cfg.rx then [] else data[k..k + Min(XferSize(cfg, cmd), |data| - k)]
  }

  lemma NextBlock(cfg: Settings, cmd: Command, data: Bytes, k: nat, blocks: nat)
    requires Sane(cfg) && k <= |data| && blocks > 0 && (cmd != cfg.rx ==> k < |data|) && (cmd == cfg.rx ==> k == 0)
    ensures var n := Min(XferSize(cfg, cmd), |data| - k);
      var k' := if cmd == cfg.rx then k else k + n;
      EncodeAll(Remaining(cfg, cmd, data, k, blocks))
      == EncodeAll(Block(cfg, cmd, NextData(cfg, cmd, data, k), n))
        + EncodeAll(Remaining(cfg, cmd, data, k', blocks - 1))
  {
    hide Block, EncodeAll;
    var n := Min(XferSize(cfg, cmd), |data| - k);
    if cmd == cfg.rx {
      EncodeConcat(Block(cfg, cmd, [], n), ReadBlocks(cfg, n, blocks - 1));
    } else {
      assert data[k..][..n] == data[k..k + n] && data[k..][n..] == data[k + n..];
      EncodeConcat(Block(cfg, cmd, data[k..k + n], n), WriteBlocks(cfg, cmd, data[k + n..]));
    }
  }

  method CountBlocks(size: nat, xferSize: nat) returns (numBlocks: nat)
    requires xferSize > 0
    ensures numBlocks == NumBlocks(size, xferSize)
  {
    numBlocks := size / xferSize;
    if size % xferSize != 0 {
      numBlocks := numBlocks + 1;
    }
  }

  // build_block_buffer. For a read only the size of the data counts.
  method BuildBlockBuffer(cfg: Settings, cmd: Command, data: Bytes) returns (buf: array<Byte>, bufSize: nat)
    requires Sane(cfg) && cmd in {cfg.tx, cfg.rx, cfg.txrx}
    ensures fresh(buf) && bufSize <= buf.Length == TotalSize(cfg, cmd, |data|)
    ensures buf[..bufSize] == EncodeAll(BlockOps(cfg, cmd, data))
  {
    hide EncodeAll, BlockOps, ReadBlocks, WriteBlocks, Block, XferSize, TotalSize, Remaining, NextData,
      NumBlocks, SaneCommands;
    var size, xferSize := |data|, if cfg.mode.I2c? || cmd.bit then 1 else cfg.xsize;
    Sizes(cfg, cmd, size);
    var numBlocks := CountBlocks(size, xferSize);
    var totalSize := size + 3 * numBlocks;
    if cfg.mode.I2c? {
      totalSize := totalSize + 3 * 3 * numBlocks;
    }
    buf := new Byte[totalSize];
    var i: nat, k: nat := 0, 0;
    ghost var done, whole: Bytes := [], EncodeAll(BlockOps(cfg, cmd, data));
    ghost var rest := whole;
    BlocksFit(cfg, cmd, data);
    AllRemain(cfg, cmd, data);
    for j := 0 to numBlocks
      invariant i == |done| <= buf.Length && buf[..i] == done
      invariant k <= size && (if cmd == cfg.rx then k == 0 else numBlocks - j == NumBlocks(size - k, xferSize))
      invariant rest == EncodeAll(Remaining(cfg, cmd, data, k, numBlocks - j)) && whole == done + rest
    {
      var dsize := size - k;
      if dsize > xferSize {
        dsize := xferSize;
      }
      StillData(size - k, xferSize, if cmd == cfg.rx then numBlocks else numBlocks - j);
      NextBlock(cfg, cmd, data, k, numBlocks - j);
      ChunkOf(cfg, cmd, data, k);
      ghost var block := EncodeAll(Block(cfg, cmd, NextData(cfg, cmd, data, k), dsize));
      i := PutBlock(cfg, cmd, if cmd == cfg.rx then [] else data[k..k + dsize], dsize, buf, i, done);
      if cmd != cfg.rx {
        NumBlocksStep(size - k, xferSize);
        k := k + dsize;
      }
      rest := EncodeAll(Remaining(cfg, cmd, data, k, numBlocks - j - 1));
      Regroup(done, block, rest);
      done := done + block;
    }
    NoneRemain(cfg, cmd, data, k);
    assert done + [] == done;
    bufSize := i;
  }

  lemma Regroup(a: Bytes, b: Bytes, c: Bytes)
    ensures a + (b + c) == a + b + c && |a + b| <= |a + b + c|
  {}

  lemma Sizes(cfg: Settings, cmd: Command, size: nat)
    requires Sane(cfg)
    ensures var x := if cfg.mode.I2c? || cmd.bit then 1 else cfg.xsize;
      && XferSize(cfg, cmd) == x
      && TotalSize(cfg, cmd, size)
        == size + 3 * NumBlocks(size, x) + if cfg.mode.I2c? then 9 * NumBlocks(size, x) else 0
  {}

  lemma AllRemain(cfg: Settings, cmd: Command, data: Bytes)
    requires Sane(cfg)
    ensures EncodeAll(BlockOps(cfg, cmd, data)) == []
      + EncodeAll(Remaining(cfg, cmd, data, 0, NumBlocks(|data|, XferSize(cfg, cmd))))
  {}

  lemma NoneRemain(cfg: Settings, cmd: Command, data: Bytes, k: nat)
    requires Sane(cfg) && k <= |data| && (cmd != cfg.rx ==> NumBlocks(|data| - k, XferSize(cfg, cmd)) == 0)
    ensures EncodeAll(Remaining(cfg, cmd, data, k, 0)) == []
  {
    if cmd != cfg.rx && k < |data| {
      NumBlocksStep(|data| - k, XferSize(cfg, cmd));
    }
  }

  lemma StillData(n: nat, xfer: nat, blocks: nat)
    requires xfer > 0
    ensures NumBlocks(n, xfer) == blocks > 0 ==> n > 0
  {}

  lemma ChunkOf(cfg: Settings, cmd: Command, data: Bytes, k: nat)
    requires Sane(cfg) && k <= |data|
    ensures NextData(cfg, cmd, data, k) ==
      if cmd == cfg.rx then [] else data[k..k + Min(XferSize(cfg, cmd), |data| - k)]
  {}

  function StartBytes(cfg: Settings, cmd: Command): Bytes {
    if cfg.mode.I2c?
    then [SET_BITS_LOW, PortByte(cfg.pstart.(sk := false)),
      PortByte(if cmd == cfg.rx then cfg.tris.(do := false) else cfg.tris)]
    else []
  }

  function EndBytes(cfg: Settings, cmd: Command): Bytes {
    if !cfg.mode.I2c? then []
    else if cmd == cfg.rx then
      [SET_BITS_LOW, PortByte(cfg.pstart.(sk := false)), PortByte(cfg.tris), Code(cfg.tx.(bit := true)), 0, cfg.tack]
    else if cmd == cfg.tx then
      [SET_BITS_LOW, PortByte(cfg.pstart.(sk := false)), PortByte(cfg.tris.(do := false)),
       Code(cfg.rx.(bit := true)), 0, SEND_IMMEDIATE]
    else []
  }

  lemma BlockBytes(cfg: Settings, cmd: Command, data: Bytes, count: nat)
    ensures EncodeAll(Block(cfg, cmd, data, count)) == StartBytes(cfg, cmd) + Header(cmd, count) + data
      + EndBytes(cfg, cmd)
  {
    hide Header;
    var a, c, e := BlockStart(cfg, cmd), [Clock(cmd, count, data)], BlockEnd(cfg, cmd);
    EncodeConcat(a + c, e);
    EncodeConcat(a, c);
    OneEncoded(c[0]);
    StartEncoded(cfg, cmd);
    EndEncoded(cfg, cmd);
    assert StartBytes(cfg, cmd) + (Header(cmd, count) + data) + EndBytes(cfg, cmd)
      == StartBytes(cfg, cmd) + Header(cmd, count) + data + EndBytes(cfg, cmd);
  }

  lemma StartEncoded(cfg: Settings, cmd: Command)
    ensures EncodeAll(BlockStart(cfg, cmd)) == StartBytes(cfg, cmd)
  {}

  lemma EndEncoded(cfg: Settings, cmd: Command)
    ensures EncodeAll(BlockEnd(cfg, cmd)) == EndBytes(cfg, cmd)
  {
    hide PortByte, Code, EncodeAll;
    NothingEncoded();
    var e := BlockEnd(cfg, cmd);
    if e != [] {
      EncodeConcat([e[0]], [e[1]]);
      OneEncoded(e[0]);
      OneEncoded(e[1]);
      assert [e[0]] + [e[1]] == e[..2];
      if |e| == 3 {
        EncodeConcat(e[..2], [e[2]]);
        OneEncoded(e[2]);
        assert e[..2] + [e[2]] == e;
      } else {
        assert e[..2] == e;
      }
    }
  }

  // One round of the loop of build_block_buffer
  method PutBlock(cfg: Settings, cmd: Command, data: Bytes, dsize: nat, buf: array<Byte>, at: nat, ghost done: Bytes)
    returns (i: nat)
    requires at == |done| <= buf.Length && buf[..at] == done
    requires dsize > 0 && |data| == if cmd == cfg.rx then 0 else dsize
    requires at + |EncodeAll(Block(cfg, cmd, data, dsize))| <= buf.Length
    modifies buf
    ensures i == at + |EncodeAll(Block(cfg, cmd, data, dsize))|
      && buf[..i] == done + EncodeAll(Block(cfg, cmd, data, dsize))
  {
    hide EncodeAll, Block, PortByte, Code, StartBytes, EndBytes, Header;
    BlockBytes(cfg, cmd, data, dsize);
    Rebracket(done, StartBytes(cfg, cmd), Header(cmd, dsize), data, EndBytes(cfg, cmd));
    var start := StartOf(cfg, cmd);
    i := Put(buf, at, start, done);
    var header := HeaderOf(cmd, dsize);
    i := Put(buf, i, header, done + start);
    i := Put(buf, i, data, done + start + header);
    var end := EndOf(cfg, cmd);
    i := Put(buf, i, end, done + start + header + data);
  }

  lemma Rebracket(a: Bytes, b: Bytes, c: Bytes, d: Bytes, e: Bytes)
    ensures a + (b + c + d + e) == a + b + c + d + e
  {}

  // On I2C the clock pin goes low before data is clocked; on receive data out becomes an input.
  method StartOf(cfg: Settings, cmd: Command) returns (s: Bytes)
    ensures s == StartBytes(cfg, cmd)
  {
    s := [];
    if cfg.mode.I2c? {
      s := [SET_BITS_LOW, PortByte(cfg.pstart.(sk := false))];
      if cmd == cfg.rx {
        s := s + [PortByte(cfg.tris.(do := false))];
      } else {
        s := s + [PortByte(cfg.tris)];
      }
    }
  }

  method HeaderOf(cmd: Command, dsize: nat) returns (s: Bytes)
    requires dsize > 0
    ensures s == Header(cmd, dsize)
  {
    hide Code;
    var rsize := dsize - 1;
    s := [Code(cmd), rsize % 256];
    if !cmd.bit {
      s := s + [rsize / 256 % 256];
    }
  }

  // The ACK bit of each byte: sent on receive, read on transmit
  method EndOf(cfg: Settings, cmd: Command) returns (s: Bytes)
    ensures s == EndBytes(cfg, cmd)
  {
    s := [];
    if cfg.mode.I2c? {
      if cmd == cfg.rx {
        s := [SET_BITS_LOW, PortByte(cfg.pstart.(sk := false)), PortByte(cfg.tris)];
        s := s + [Code(cfg.tx.(bit := true)), 0, cfg.tack];
      } else if cmd == cfg.tx {
        s := [SET_BITS_LOW, PortByte(cfg.pstart.(sk := false)), PortByte(cfg.tris.(do := false))];
        s := s + [Code(cfg.rx.(bit := true)), 0, SEND_IMMEDIATE];
      }
    }
  }

  // fast_build_block_buffer, for a write into fast_rw_buf
  method FastBuildBlockBuffer(cfg: Settings, data: Bytes, fastBuf: array<Byte>) returns (bufSize: nat)
    requires fastBuf.Length == FAST_BUFFER
    modifies fastBuf
    ensures bufSize <= fastBuf.Length && fastBuf[..bufSize] == FastBuffer(cfg, data)
  {
    hide Code;
    var rsize := (|data| + 0xFFFF) % 0x1_0000;
    Uint16(|data| + 0xFFFF);
    fastBuf[0], fastBuf[1], fastBuf[2] := Code(cfg.tx), rsize % 256, rsize / 256;
    ghost var header: Bytes := [Code(cfg.tx), rsize % 256, rsize / 256];
    assert fastBuf[..3] == header;
    bufSize := 3;
    if 3 + |data| <= fastBuf.Length {
      bufSize := Put(fastBuf, 3, data, header);
    } else {
      assert header + [] == header;
    }
  }

  lemma Uint16(n: nat)
    ensures n % 0x1_0000 % 256 == n % 256 && n % 0x1_0000 / 256 == n / 256 % 256
  {}
}
