/** The streaming CMAC context of src/fwd/src/cmac.c, updated in place. */
module Cmac {
  import opened CmacSpec

  // LSHIFT(v, v): the loop reads byte i + 1 before it overwrites it.
  method LeftShiftInPlace(k: array<bv8>)
    requires k.Length == 16
    modifies k
    ensures k[..] == ShiftLeft(old(k[..]))
  {
    for i := 0 to 15
      invariant forall j :: 0 <= j < i ==> k[j] == ShiftLeft(old(k[..]))[j]
      invariant forall j :: i <= j < 16 ==> k[j] == old(k[j])
    {
      k[i] := ShiftIn(k[i], k[i + 1]);
    }
    k[15] := ShiftIn(k[15], 0);
  }

  // XOR(v, r)
  method XorInto(v: seq<bv8>, r: array<bv8>)
    requires |v| == 16 && r.Length == 16
    modifies r
    ensures r[..] == Xor(old(r[..]), v)
  {
    for i := 0 to 16
      invariant forall j :: 0 <= j < i ==> r[j] == Xor(old(r[..]), v)[j]
      invariant forall j :: i <= j < 16 ==> r[j] == old(r[j])
    {
      r[i] := r[i] ^ v[i];
    }
  }

  // lgw_memcpy(dst + at, src, |src|)
  method CopyInto(dst: array<bv8>, at: nat, src: seq<bv8>)
    requires at + |src| <= dst.Length
    modifies dst
    ensures dst[..] == old(dst[..at]) + src + old(dst[at + |src|..])
  {
    forall i | 0 <= i < |src| {
      dst[at + i] := src[i];
    }
  }

  // One subkey generation step of AES_CMAC_Final, in place
  method DoubleInPlace(k: array<bv8>)
    requires k.Length == 16
    modifies k
    ensures k[..] == Double(old(k[..]))
  {
    ghost var was: Block := k[..];
    if k[0] & 0x80 != 0 {
      LeftShiftInPlace(k);
      k[15] := k[15] ^ 0x87;
      assert TopBit(was);
    } else {
      LeftShiftInPlace(k);
      assert !TopBit(was);
    }
  }

  // padding(M_last): a one bit, then zeros up to the block size
  method PadInPlace(last: array<bv8>, n: nat)
    requires last.Length == 16 && n < 16
    modifies last
    ensures last[..] == Pad(old(last[..n]))
  {
    last[n] := 0x80;
    var i := n + 1;
    while i < 16
      invariant n < i <= 16
      invariant last[..i] == old(last[..n]) + [0x80] + seq(i - n - 1, _ => 0)
    {
      last[i] := 0;
      i := i + 1;
    }
  }

  class AesCmac {
    // aes_set_key and aes_encrypt: a key gives a key schedule, a key schedule a block cipher
    const expand: Block -> seq<bv8>
    const encrypt: seq<bv8> -> Cipher

    var ksch: seq<bv8>
    var X: array<bv8>
    var mLast: array<bv8>
    var mN: nat

    ghost predicate Valid()
      reads this, X, mLast
    {
      X != mLast && X.Length == 16 && mLast.Length == 16 && mN <= 16
    }

    // The abstract state: the chaining value and the held-back bytes
    ghost function Abstract(): State
      requires Valid()
      reads this, X, mLast
    {
      State(X[..], mLast[..mN])
    }

    // The storage of a context; its contents are whatever was there
    constructor (expand: Block -> seq<bv8>, encrypt: seq<bv8> -> Cipher)
      ensures Valid() && fresh(X) && fresh(mLast)
      ensures this.expand == expand && this.encrypt == encrypt
    {
      this.expand, this.encrypt := expand, encrypt;
      ksch := [];
      X, mLast := new bv8[16], new bv8[16];
      mN := 0;
    }

    method Init()
      requires Valid()
      modifies this`mN, this`ksch, X
      ensures Valid() && Abstract() == FRESH && ksch == seq(240, _ => 0)
    {
      forall i | 0 <= i < 16 {
        X[i] := 0;
      }
      mN := 0;
      ksch := seq(240, _ => 0);
      assert X[..] == Zero();
    }

    method SetKey(key: Block)
      requires Valid()
      modifies this`ksch
      ensures Valid() && Abstract() == old(Abstract()) && ksch == expand(key)
    {
      ksch := expand(key);
    }

    // XOR(v, ctx->X) and aes_encrypt(ctx->X, ctx->X)
    method Chain(v: Block)
      requires Valid()
      modifies X
      ensures X[..] == encrypt(ksch)(Xor(old(X[..]), v))
    {
      XorInto(v, X);
      var block := encrypt(ksch)(X[..]);
      CopyInto(X, 0, block);
    }

    // The first part of an update: tops up a held-back block and, when more data follows,
    // enciphers it. Returns how much of the data it took, and whether the update is over.
    method TopUp(data: seq<bv8>) returns (taken: nat, done: bool)
      requires Valid() && mN > 0
      modifies this`mN, X, mLast
      ensures Valid() && taken <= |data|
      ensures done ==> Abstract() == Absorb(encrypt(ksch), old(Abstract()), data)
      ensures !done ==>
        && taken < |data|
        && Absorb(encrypt(ksch), old(Abstract()), data) == Absorb(encrypt(ksch), State(X[..], []), data[taken..])
    {
      ghost var e := encrypt(ksch);
      ghost var s := Abstract();
      taken := if 16 - mN < |data| then 16 - mN else |data|;
      ghost var filled := State(s.x, s.tail + data[..taken]);
      AbsorbFits(e, s, data[..taken]);
      CopyInto(mLast, mN, data[..taken]);
      Grown(s.tail, data[..taken], mLast[mN + taken..]);
      mN := mN + taken;
      assert mLast[..mN] == filled.tail;
      if mN < 16 || |data| == taken {
        assert data[..taken] == data;
        return taken, true;
      }
      assert mLast[..] == filled.tail;
      Chain(mLast[..]);
      assert data == data[..taken] + data[taken..];
      AbsorbConcat(e, s, data[..taken], data[taken..]);
      AbsorbSpills(e, filled, data[taken..]);
      done := false;
    }

    method Update(data: seq<bv8>)
      requires Valid()
      modifies this`mN, X, mLast
      ensures Valid()
      ensures Abstract() == Absorb(encrypt(ksch), old(Abstract()), data)
    {
      ghost var e := encrypt(ksch);
      ghost var s0 := Abstract();
      var d := 0;  // data and len of the C code are data[d..] and |data| - d
      if mN > 0 {
        var done;
        d, done := TopUp(data);
        if done {
          return;
        }
      } else {
        assert data[0..] == data && s0 == State(X[..], []);
      }
      while |data| - d > 16
        invariant d <= |data| && Valid()
        invariant Absorb(e, s0, data) == Absorb(e, State(X[..], []), data[d..])
      {
        AbsorbBlock(e, X[..], data[d..]);
        Chain(data[d..d + 16]);
        assert data[d..][..16] == data[d..d + 16] && data[d..][16..] == data[d + 16..];
        d := d + 16;
      }
      AbsorbFits(e, State(X[..], []), data[d..]);
      CopyInto(mLast, 0, data[d..]);
      mN := |data| - d;
      assert mLast[..mN] == [] + data[d..];
    }

    // "generate subkey K1" on a local buffer
    method GenerateK1() returns (k: array<bv8>)
      ensures fresh(k) && k.Length == 16 && k[..] == K1(encrypt(ksch))
    {
      k := new bv8[16](_ => 0);
      assert k[..] == Zero();
      var l := encrypt(ksch)(k[..]);
      CopyInto(k, 0, l);
      assert k[..] == l;
      DoubleInPlace(k);
    }

    // Mixes K1 into a full last block, and K2 into a padded one.
    method MaskLastBlock()
      requires Valid()
      modifies mLast, this`mN
      ensures Valid() && mN == 16
      ensures mLast[..] == LastBlock(encrypt(ksch), old(mLast[..mN]))
    {
      var k := GenerateK1();
      if mN == 16 {
        assert mLast[..] == mLast[..mN];
        XorInto(k[..], mLast);
      } else {
        DoubleInPlace(k);
        PadInPlace(mLast, mN);
        mN := 16;
        XorInto(k[..], mLast);
      }
    }

    // Writes the digest and leaves the context with the masked last block mixed in.
    method Final(digest: array<bv8>)
      requires Valid() && digest.Length == 16 && digest != X && digest != mLast
      modifies this`mN, X, mLast, digest
      ensures Valid() && mN == 16
      ensures digest[..] == Finish(encrypt(ksch), old(Abstract()))
      ensures mLast[..] == LastBlock(encrypt(ksch), old(Abstract()).tail)
      ensures X[..] == Xor(old(X[..]), mLast[..])
    {
      MaskLastBlock();
      XorInto(mLast[..], X);
      var input := encrypt(ksch)(X[..]);
      CopyInto(digest, 0, input);
    }
  }

  // ---- The message integrity code of src/fwd/src/loramac-crypto.c ----

  lemma Grown(a: seq<bv8>, b: seq<bv8>, c: seq<bv8>)
    ensures (a + b + c)[..|a| + |b|] == a + b && (a + b + c)[|a| + |b|..] == c
  {}

  type UInt16 = n: int | 0 <= n < 0x1_0000

  function LittleEndian(v: bv32): (s: seq<bv8>)
    ensures |s| == 4
  {
    [(v & 0xFF) as bv8, ((v >> 8) & 0xFF) as bv8, ((v >> 16) & 0xFF) as bv8, ((v >> 24) & 0xFF) as bv8]
  }

  // Block B0: its fixed bytes, then direction, address and counter, and the low length byte
  function BlockB0(size: UInt16, address: bv32, dir: bv8, counter: bv32): Block {
    [0x49, 0, 0, 0, 0, dir] + LittleEndian(address) + LittleEndian(counter) + [0, (size % 256) as bv8]
  }

  // The number that four bytes denote, lowest byte first
  function WordOf(a: bv8, b: bv8, c: bv8, d: bv8): bv32 {
    a as bv32 + b as bv32 * 0x100 + c as bv32 * 0x1_0000 + d as bv32 * 0x100_0000
  }

  lemma WordWritten(v: bv32)
    ensures var s := LittleEndian(v); WordOf(s[0], s[1], s[2], s[3]) == v
  {}

  // The bytes the code authenticates. Only the low eight bits of the size are used.
  function Authenticated(buffer: seq<bv8>, size: UInt16, address: bv32, dir: bv8, counter: bv32): seq<bv8>
    requires size <= |buffer|
  {
    BlockB0(size, address, dir, counter) + buffer[..size % 256]
  }

  // Read from the bytes authenticated: the fixed ones, the direction, the address in bytes 6 to 9
  // and the counter in bytes 10 to 13, lowest byte first, the low byte of the size, and the frame
  lemma AuthenticatedFields(buffer: seq<bv8>, size: UInt16, address: bv32, dir: bv8, counter: bv32)
    requires size <= |buffer|
    ensures var s := Authenticated(buffer, size, address, dir, counter);
      && |s| == 16 + size % 256
      && s[..5] == [0x49, 0, 0, 0, 0] && s[5] == dir
      && WordOf(s[6], s[7], s[8], s[9]) == address && WordOf(s[10], s[11], s[12], s[13]) == counter
      && s[14] == 0 && s[15] == (size % 256) as bv8 && s[16..] == buffer[..size % 256]
  {
    hide *;
    WordWritten(address);
    WordWritten(counter);
    Fields(buffer, size, address, dir, counter);
  }

  lemma Fields(buffer: seq<bv8>, size: UInt16, address: bv32, dir: bv8, counter: bv32)
    requires size <= |buffer|
    ensures var s, a, c := Authenticated(buffer, size, address, dir, counter), LittleEndian(address),
        LittleEndian(counter);
      && |s| == 16 + size % 256 && |a| == |c| == 4
      && s[..5] == [0x49, 0, 0, 0, 0] && s[5] == dir
      && s[6] == a[0] && s[7] == a[1] && s[8] == a[2] && s[9] == a[3]
      && s[10] == c[0] && s[11] == c[1] && s[12] == c[2] && s[13] == c[3]
      && s[14] == 0 && s[15] == (size % 256) as bv8 && s[16..] == buffer[..size % 256]
  {
    hide LittleEndian;
  }

  // The first four digest bytes as a little-endian word
  function Word(digest: Block): bv32 {
    (digest[3] as bv32 << 24) | (digest[2] as bv32 << 16) | (digest[1] as bv32 << 8) | digest[0] as bv32
  }

  lemma WordBytes(digest: Block)
    ensures LittleEndian(Word(digest)) == digest[..4]
  {}

  // Two updates of one context, then the first four digest bytes
  method MicOf(ctx: AesCmac, b0: seq<bv8>, data: seq<bv8>, key: Block) returns (mic: bv32)
    requires ctx.Valid()
    modifies ctx`mN, ctx`ksch, ctx.X, ctx.mLast
    ensures ctx.Valid()
    ensures mic == Word(Mac(ctx.encrypt(ctx.expand(key)), b0 + data))
  {
    hide Word, Mac, Absorb, Finish, LastBlock;
    ctx.Init();
    ctx.SetKey(key);
    ctx.Update(b0);
    ctx.Update(data);
    MicOfTwoUpdates(ctx.encrypt(ctx.ksch), b0, data);
    var digest := new bv8[16];
    ctx.Final(digest);
    mic := Word(digest[..]);
  }

  // LoRaMacComputeMic
  method ComputeMic(ctx: AesCmac, buffer: seq<bv8>, size: UInt16, key: Block,
                    address: bv32, dir: bv8, counter: bv32) returns (mic: bv32)
    requires ctx.Valid() && size <= |buffer|
    modifies ctx`mN, ctx`ksch, ctx.X, ctx.mLast
    ensures ctx.Valid()
    ensures mic == Word(Mac(ctx.encrypt(ctx.expand(key)), Authenticated(buffer, size, address, dir, counter)))
  {
    mic := MicOf(ctx, BlockB0(size, address, dir, counter), buffer[..size % 256], key);
  }

  lemma MicOfTwoUpdates(e: Cipher, a: seq<bv8>, b: seq<bv8>)
    ensures var s := Absorb(e, Absorb(e, FRESH, a), b);
      |s.tail| <= 16 && Finish(e, s) == Mac(e, a + b)
  {
    AbsorbConcat(e, FRESH, a, b);
    AbsorbedState(e, a + b);
  }

  // The code authenticates the whole frame exactly when its size fits one byte.
  lemma WholeFrameAuthenticated(buffer: seq<bv8>, size: UInt16, address: bv32, dir: bv8, counter: bv32)
    requires size <= |buffer|
    ensures size <= 255
      <==> Authenticated(buffer, size, address, dir, counter) == BlockB0(size, address, dir, counter) + buffer[..size]
  {}
}
