/**
  AES-CMAC as section 2 of RFC 4493 defines it, over an uninterpreted block cipher, and the
  byte-at-a-time absorber that the streaming context refines.
*/
module CmacSpec {

  type Block = s: seq<bv8> | |s| == 16 witness seq(16, _ => 0)

  // A block cipher under a fixed key
  type Cipher = Block -> Block

  function Zero(): Block {
    seq(16, _ => 0)
  }

  function Xor(a: Block, b: Block): Block {
    seq(16, i requires 0 <= i < 16 => a[i] ^ b[i])
  }

  // ---- Subkeys: section 2.3 of RFC 4493 ----

  type Digit = d: int | 0 <= d < 256

  function Pow256(n: nat): (p: nat)
    ensures p > 0
  {
    if n == 0 then 1 else 256 * Pow256(n - 1)
  }

  // The integer that base-256 digits denote, most significant digit first
  function BigEndian(s: seq<Digit>): nat {
    if s == [] then 0 else s[0] * Pow256(|s| - 1) + BigEndian(s[1..])
  }

  function Weight(set': bool, w: int): int {
    if set' then w else 0
  }

  // The unsigned value of a byte, read off its bits
  function Value(v: bv8): Digit {
    Weight(v & 0x80 != 0, 128) + Weight(v & 0x40 != 0, 64) + Weight(v & 0x20 != 0, 32) + Weight(v & 0x10 != 0, 16) +
    Weight(v & 0x08 != 0, 8) + Weight(v & 0x04 != 0, 4) + Weight(v & 0x02 != 0, 2) + Weight(v & 0x01 != 0, 1)
  }

  function Digits(s: seq<bv8>): (d: seq<Digit>)
    ensures |d| == |s|
  {
    seq(|s|, i requires 0 <= i < |s| => Value(s[i]))
  }

  // A byte moved up one bit position, taking in the top bit of the byte after it
  function ShiftIn(v: bv8, w: bv8): bv8 {
    (v << 1) | (w >> 7)
  }

  // All bytes moved up one bit position; the top bit of the first byte falls off
  function ShiftLeft(s: seq<bv8>): (r: seq<bv8>)
    ensures |r| == |s|
  {
    seq(|s|, i requires 0 <= i < |s| => ShiftIn(s[i], if i + 1 < |s| then s[i + 1] else 0))
  }

  predicate TopBit(b: Block) {
    b[0] & 0x80 != 0
  }

  // b is the result of folding const_Rb (0x87 in the last byte) into a
  ghost predicate FoldedRb(a: Block, b: Block) {
    b == a[15 := a[15] ^ 0x87]
  }

  // k is "L << 1", with const_Rb folded in exactly when the shift carries out. The shift is
  // stated on the 128-bit integer the block denotes.
  ghost predicate IsSubkeyOf(k: Block, l: Block) {
    exists shifted: Block ::
      && BigEndian(Digits(shifted)) == 2 * BigEndian(Digits(l)) % Pow256(16)
      && (if 2 * BigEndian(Digits(l)) >= Pow256(16) then FoldedRb(shifted, k) else k == shifted)
  }

  function Double(l: Block): Block {
    var s := ShiftLeft(l);
    if TopBit(l) then s[15 := s[15] ^ 0x87] else s
  }

  function ShiftDigit(v: Digit, w: Digit): int {
    (if v >= 128 then 2 * v - 256 else 2 * v) + if w >= 128 then 1 else 0
  }

  lemma ShiftByte(v: bv8, w: bv8)
    ensures Value(ShiftIn(v, w)) == ShiftDigit(Value(v), Value(w))
  {}

  lemma ValueInjective(v: bv8, w: bv8)
    requires Value(v) == Value(w)
    ensures v == w
  {}

  function ShiftDigits(s: seq<Digit>): (r: seq<Digit>)
    ensures |r| == |s|
  {
    if s == [] then [] else
    var h: Digit := ShiftDigit(s[0], if |s| > 1 then s[1] else 0);
    [h] + ShiftDigits(s[1..])
  }

  lemma {:induction false} ShiftLeftDigits(s: seq<bv8>)
    ensures Digits(ShiftLeft(s)) == ShiftDigits(Digits(s))
  {
    if s != [] {
      ShiftLeftDigits(s[1..]);
      ShiftByte(s[0], if |s| > 1 then s[1] else 0);
      assert Digits(s)[1..] == Digits(s[1..]);
      assert ShiftLeft(s)[1..] == ShiftLeft(s[1..]);
      assert Digits(ShiftLeft(s)) == [Value(ShiftLeft(s)[0])] + Digits(ShiftLeft(s)[1..]);
    }
  }

  lemma CarryUp(v: Digit, w: Digit, p: int, rest: int)
    ensures ShiftDigit(v, w) * p + (if v >= 128 then 256 * p else 0) + rest
         == 2 * (v * p) + (if w >= 128 then p else 0) + rest
  {}

  // The digit-wise shift doubles the integer; what overflows is the top bit.
  lemma {:induction false} ShiftDoubles(s: seq<Digit>)
    requires s != []
    ensures 2 * BigEndian(s) == BigEndian(ShiftDigits(s)) + if s[0] >= 128 then Pow256(|s|) else 0
  {
    var p := Pow256(|s| - 1);
    var t := s[1..];
    var w: Digit := if |s| > 1 then s[1] else 0;
    if t != [] {
      ShiftDoubles(t);
    }
    assert ShiftDigits(s)[1..] == ShiftDigits(t);
    CarryUp(s[0], w, p, BigEndian(ShiftDigits(t)));
  }

  lemma ScaleBound(d: Digit, p: nat)
    ensures d * p <= 255 * p
  {}

  lemma {:induction false} BigEndianBound(s: seq<Digit>)
    ensures BigEndian(s) < Pow256(|s|)
  {
    if s != [] {
      BigEndianBound(s[1..]);
      ScaleBound(s[0], Pow256(|s| - 1));
    }
  }

  lemma Separated(x: int, y: int, p: int)
    requires x < y && 0 <= p
    ensures x * p + p <= y * p
  {
    var k := y - x - 1;
    assert 0 <= k * p;
    assert y * p == (x + 1 + k) * p == x * p + p + k * p;
  }

  lemma LeadingDigit(x: Digit, y: Digit, p: int, u: int, v: int)
    requires 0 <= u < p && 0 <= v < p && x * p + u == y * p + v
    ensures x == y && u == v
  {
    if x < y { Separated(x, y, p); }
    if y < x { Separated(y, x, p); }
  }

  // Equal-length digit strings denoting the same integer are equal.
  lemma {:induction false} BigEndianInjective(a: seq<Digit>, b: seq<Digit>)
    requires |a| == |b| && BigEndian(a) == BigEndian(b)
    ensures a == b
  {
    if a != [] {
      BigEndianBound(a[1..]);
      BigEndianBound(b[1..]);
      LeadingDigit(a[0], b[0], Pow256(|a| - 1), BigEndian(a[1..]), BigEndian(b[1..]));
      BigEndianInjective(a[1..], b[1..]);
    }
  }

  lemma DigitsInjective(a: seq<bv8>, b: seq<bv8>)
    requires Digits(a) == Digits(b)
    ensures a == b
  {
    forall i | 0 <= i < |a| ensures a[i] == b[i] {
      assert Digits(a)[i] == Value(a[i]) && Digits(b)[i] == Value(b[i]);
      ValueInjective(a[i], b[i]);
    }
  }

  lemma ShiftLeftDoubles(l: Block)
    ensures 2 * BigEndian(Digits(l)) == BigEndian(Digits(ShiftLeft(l))) + if TopBit(l) then Pow256(16) else 0
  {
    ShiftLeftDigits(l);
    ShiftDoubles(Digits(l));
    assert Digits(l)[0] == Value(l[0]);
  }

  // Double is the one block that section 2.3 admits as the subkey of l.
  lemma DoubleIsSubkey(l: Block, k: Block)
    ensures IsSubkeyOf(k, l) <==> k == Double(l)
  {
    var s: Block := ShiftLeft(l);
    var p := Pow256(16);
    var n, r := 2 * BigEndian(Digits(l)), BigEndian(Digits(s));
    ShiftLeftDoubles(l);
    BigEndianBound(Digits(s));
    ReduceOnce(n, r, p, TopBit(l));
    if IsSubkeyOf(k, l) {
      var shifted: Block :|
        && BigEndian(Digits(shifted)) == n % p
        && (if n >= p then FoldedRb(shifted, k) else k == shifted);
      BigEndianInjective(Digits(shifted), Digits(s));
      DigitsInjective(shifted, s);
    }
  }

  lemma ReduceOnce(n: nat, r: nat, p: nat, carry: bool)
    requires 0 <= r < p && n == r + if carry then p else 0
    ensures n % p == r && (carry <==> n >= p)
  {}

  function K1(e: Cipher): Block {
    Double(e(Zero()))
  }

  function K2(e: Cipher): Block {
    Double(K1(e))
  }

  // ---- The one-shot MAC: section 2.4 of RFC 4493 ----

  // Number of blocks before the last one; the empty message counts as one block.
  function LeadingBlocks(m: seq<bv8>): nat {
    if m == [] then 0 else (|m| - 1) / 16
  }

  // X after the first k blocks of m
  function Chain(e: Cipher, m: seq<bv8>, k: nat): Block
    requires 16 * k <= |m|
  {
    if k == 0 then Zero() else e(Xor(Chain(e, m, k - 1), m[16 * (k - 1)..16 * k]))
  }

  function Pad(tail: seq<bv8>): Block
    requires |tail| < 16
  {
    tail + [0x80] + seq(15 - |tail|, _ => 0)
  }

  function LastBlock(e: Cipher, tail: seq<bv8>): Block
    requires |tail| <= 16
  {
    if |tail| == 16 then Xor(tail, K1(e)) else Xor(Pad(tail), K2(e))
  }

  function Mac(e: Cipher, m: seq<bv8>): Block {
    var n := LeadingBlocks(m);
    e(Xor(Chain(e, m, n), LastBlock(e, m[16 * n..])))
  }

  // The tail of a message, padded with a one bit and zeros to a whole block
  predicate IsPadded(block: Block, tail: seq<bv8>) {
    && |tail| < 16
    && forall i :: 0 <= i < 16 ==>
      block[i] == if i < |tail| then tail[i] else if i == |tail| then 0x80 else 0
  }

  // The chaining values of section 2.4 of RFC 4493, one for each of the n blocks: xs[i] is what
  // the block after the first i is mixed into.
  predicate IsChain(e: Cipher, m: seq<bv8>, xs: seq<Block>) {
    && |xs| == (if m == [] then 1 else (|m| + 15) / 16) && xs[0] == Zero()
    && forall i :: 1 <= i < |xs| ==> ChainedAt(e, m, xs, i)
  }

  predicate ChainedAt(e: Cipher, m: seq<bv8>, xs: seq<Block>, i: nat)
    requires 1 <= i < |xs|
  {
    16 * i <= |m| && xs[i] == e(Xor(xs[i - 1], m[16 * i - 16..16 * i]))
  }

  // The MAC as the standard's steps give it: the last block is mixed with the first subkey of
  // the enciphered zero block if it is complete, and padded and mixed with the second otherwise.
  lemma MacByTheStandard(e: Cipher, m: seq<bv8>, k1: Block, k2: Block, xs: seq<Block>, padded: Block)
    requires IsSubkeyOf(k1, e(Zero())) && IsSubkeyOf(k2, k1) && IsChain(e, m, xs)
    ensures var tail := m[16 * (|xs| - 1)..];
      && (|tail| == 16 ==> Mac(e, m) == e(Xor(xs[|xs| - 1], Xor(tail, k1))))
      && (IsPadded(padded, tail) ==> Mac(e, m) == e(Xor(xs[|xs| - 1], Xor(padded, k2))))
      && |tail| <= 16 && (tail == [] <==> m == [])
  {
    hide Xor, IsSubkeyOf, Double;
    DoubleIsSubkey(e(Zero()), k1);
    DoubleIsSubkey(k1, k2);
    ChainIs(e, m, xs, |xs| - 1);
    var tail := m[16 * (|xs| - 1)..];
    if IsPadded(padded, tail) {
      assert padded == Pad(tail);
    }
  }

  lemma {:induction false} ChainIs(e: Cipher, m: seq<bv8>, xs: seq<Block>, k: nat)
    requires IsChain(e, m, xs) && k < |xs|
    ensures 16 * k <= |m| && Chain(e, m, k) == xs[k]
  {
    hide Xor;
    if k > 0 {
      ChainIs(e, m, xs, k - 1);
      assert ChainedAt(e, m, xs, k);
    }
  }

  // ---- Absorbing a message byte by byte ----

  // The chaining value and the held-back tail of what has been absorbed
  datatype State = State(x: Block, tail: seq<bv8>)

  const FRESH: State := State(Zero(), [])

  function AbsorbByte(e: Cipher, s: State, b: bv8): State {
    if |s.tail| == 16 then State(e(Xor(s.x, s.tail)), [b]) else State(s.x, s.tail + [b])
  }

  function Absorb(e: Cipher, s: State, data: seq<bv8>): State {
    if data == [] then s
    else AbsorbByte(e, Absorb(e, s, data[..|data| - 1]), data[|data| - 1])
  }

  function Finish(e: Cipher, s: State): Block
    requires |s.tail| <= 16
  {
    e(Xor(s.x, LastBlock(e, s.tail)))
  }

  lemma {:induction false} AbsorbConcat(e: Cipher, s: State, a: seq<bv8>, b: seq<bv8>)
    ensures Absorb(e, s, a + b) == Absorb(e, Absorb(e, s, a), b)
  {
    if b == [] {
      assert a + b == a;
    } else {
      var b' := b[..|b| - 1];
      AbsorbConcat(e, s, a, b');
      assert (a + b)[..|a + b| - 1] == a + b';
    }
  }

  // Data that fits in the held-back block is only appended to it.
  lemma {:induction false} AbsorbFits(e: Cipher, s: State, data: seq<bv8>)
    requires |s.tail| + |data| <= 16
    ensures Absorb(e, s, data) == State(s.x, s.tail + data)
  {
    if data == [] {
      assert s.tail + data == s.tail;
    } else {
      AbsorbFits(e, s, data[..|data| - 1]);
      assert s.tail + data == s.tail + data[..|data| - 1] + [data[|data| - 1]];
    }
  }

  // A full held-back block is enciphered as soon as one more byte arrives.
  lemma AbsorbSpills(e: Cipher, s: State, data: seq<bv8>)
    requires |s.tail| == 16 && 0 < |data|
    ensures Absorb(e, s, data) == Absorb(e, State(e(Xor(s.x, s.tail)), []), data)
  {}

  // With nothing held back, a block followed by more data is enciphered whole.
  lemma AbsorbBlock(e: Cipher, x: Block, data: seq<bv8>)
    requires |data| > 16
    ensures Absorb(e, State(x, []), data) == Absorb(e, State(e(Xor(x, data[..16])), []), data[16..])
  {
    var block: Block := data[..16];
    assert data == block + data[16..];
    AbsorbConcat(e, State(x, []), block, data[16..]);
    AbsorbFits(e, State(x, []), block);
    assert [] + block == block;
    AbsorbSpills(e, State(x, block), data[16..]);
  }

  lemma {:induction false} ChainPrefix(e: Cipher, m: seq<bv8>, n: seq<bv8>, k: nat)
    requires 16 * k <= |m|
    ensures Chain(e, m + n, k) == Chain(e, m, k)
  {
    if k > 0 {
      ChainPrefix(e, m, n, k - 1);
      assert (m + n)[16 * (k - 1)..16 * k] == m[16 * (k - 1)..16 * k];
    }
  }

  lemma {:induction false} AbsorbedAt(e: Cipher, m: seq<bv8>, k: nat)
    requires 16 * k <= |m| <= 16 * k + 16
    requires |m| == 16 * k ==> k == 0
    ensures Absorb(e, FRESH, m) == State(Chain(e, m, k), m[16 * k..])
  {
    hide *;
    if m == [] {
      NothingAbsorbed(e, k);
    } else {
      var m', b := m[..|m| - 1], m[|m| - 1];
      assert m == m' + [b];
      LastAbsorbed(e, m);
      if |m'| == 16 * k && k > 0 {
        AbsorbedAt(e, m', k - 1);
        Spilled(e, m', b, k);
      } else {
        AbsorbedAt(e, m', k);
        Appended(e, m', b, k);
      }
    }
  }

  lemma NothingAbsorbed(e: Cipher, k: nat)
    requires k == 0
    ensures Absorb(e, FRESH, []) == State(Chain(e, [], k), [][16 * k..])
  {}

  lemma LastAbsorbed(e: Cipher, m: seq<bv8>)
    requires m != []
    ensures Absorb(e, FRESH, m) == AbsorbByte(e, Absorb(e, FRESH, m[..|m| - 1]), m[|m| - 1])
  {}

  // The byte behind a full held-back block
  lemma Spilled(e: Cipher, m: seq<bv8>, b: bv8, k: nat)
    requires |m| == 16 * k && k > 0
    ensures AbsorbByte(e, State(Chain(e, m, k - 1), m[16 * (k - 1)..]), b)
      == State(Chain(e, m + [b], k), (m + [b])[16 * k..])
  {
    ChainPrefix(e, m, [b], k - 1);
    assert (m + [b])[16 * (k - 1)..16 * k] == m[16 * (k - 1)..];
    assert (m + [b])[16 * k..] == [b];
  }

  // A byte that fits in the held-back block
  lemma Appended(e: Cipher, m: seq<bv8>, b: bv8, k: nat)
    requires 16 * k <= |m| < 16 * k + 16
    ensures AbsorbByte(e, State(Chain(e, m, k), m[16 * k..]), b) == State(Chain(e, m + [b], k), (m + [b])[16 * k..])
  {
    ChainPrefix(e, m, [b], k);
    assert (m + [b])[16 * k..] == m[16 * k..] + [b];
  }

  // The invariant of the context: x is the CBC chain over every block but the last, and the
  // tail is that last, held-back block; it is empty only before the first byte.
  lemma AbsorbedState(e: Cipher, m: seq<bv8>)
    ensures Absorb(e, FRESH, m) == State(Chain(e, m, LeadingBlocks(m)), m[16 * LeadingBlocks(m)..])
    ensures |Absorb(e, FRESH, m).tail| <= 16
    ensures Absorb(e, FRESH, m).tail == [] <==> m == []
  {
    AbsorbedAt(e, m, LeadingBlocks(m));
  }

  function Flatten(chunks: seq<seq<bv8>>): seq<bv8> {
    if chunks == [] then [] else Flatten(chunks[..|chunks| - 1]) + chunks[|chunks| - 1]
  }

  // The states after a run of updates, one per chunk
  function AbsorbAll(e: Cipher, s: State, chunks: seq<seq<bv8>>): State {
    if chunks == [] then s
    else Absorb(e, AbsorbAll(e, s, chunks[..|chunks| - 1]), chunks[|chunks| - 1])
  }

  lemma {:induction false} AbsorbAllFlattens(e: Cipher, s: State, chunks: seq<seq<bv8>>)
    ensures AbsorbAll(e, s, chunks) == Absorb(e, s, Flatten(chunks))
  {
    if chunks != [] {
      AbsorbAllFlattens(e, s, chunks[..|chunks| - 1]);
      AbsorbConcat(e, s, Flatten(chunks[..|chunks| - 1]), chunks[|chunks| - 1]);
    }
  }

  // However a message is cut into updates, finishing gives the MAC of section 2.4.
  lemma StreamingMac(e: Cipher, chunks: seq<seq<bv8>>)
    ensures var s := AbsorbAll(e, FRESH, chunks);
      |s.tail| <= 16 && Finish(e, s) == Mac(e, Flatten(chunks))
  {
    AbsorbAllFlattens(e, FRESH, chunks);
    AbsorbedState(e, Flatten(chunks));
  }
}
