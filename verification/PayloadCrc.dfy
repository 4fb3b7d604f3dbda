/**
  The payload CRC of src/tools/payload_crc.c: the byte-parallel XOR network, the bit-serial
  register it unrolls, and GF(2) polynomial division by x^16 + x^12 + x^5 + 1.
*/
module PayloadCrc {
  import opened Common

  // ---- Bit strings: polynomials over GF(2), highest coefficient first ----

  type Bits = seq<bool>

  function Zeros(n: nat): (z: Bits)
    ensures |z| == n
  {
    seq(n, _ => false)
  }

  function Xor(a: Bits, b: Bits): (r: Bits)
    requires |a| == |b|
    ensures |r| == |a|
  {
    seq(|a|, i requires 0 <= i < |a| => a[i] != b[i])
  }

  // The coefficient of x^e in a
  predicate Coefficient(a: Bits, e: int) {
    0 <= e < |a| && a[|a| - 1 - e]
  }

  // The coefficient of x^e in q * (x^16 + x^12 + x^5 + 1)
  predicate ProductCoefficient(q: Bits, e: int) {
    Odd4(Coefficient(q, e - 16), Coefficient(q, e - 12), Coefficient(q, e - 5), Coefficient(q, e))
  }

  // r (of degree below 16) is a remainder of m: m = q * (x^16 + x^12 + x^5 + 1) + r
  ghost predicate Divides(q: Bits, m: Bits, r: Bits) {
    forall e: int :: Coefficient(m, e) == (ProductCoefficient(q, e) != Coefficient(r, e))
  }

  // The message is divided as it stands; it is not multiplied by x^16 first.
  ghost predicate IsRemainder(m: Bits, r: Bits) {
    |r| == 16 && exists q: Bits :: |q| == |m| && Divides(q, m, r)
  }

  function Odd4(a: bool, b: bool, c: bool, d: bool): bool {
    ((a != b) != c) != d
  }

  // The unsigned number that a bit string denotes
  function Number(b: Bits): nat {
    if b == [] then 0 else 2 * Number(b[..|b| - 1]) + BitOf(b[|b| - 1])
  }

  // The low w bits of a number
  function Coefficients(n: nat, w: nat): (c: Bits)
    ensures |c| == w
  {
    if w == 0 then [] else Coefficients(n / 2, w - 1) + [n % 2 == 1]
  }

  lemma {:induction false} NumberOfCoefficients(c: Bits)
    ensures Coefficients(Number(c), |c|) == c
  {
    if c != [] {
      NumberOfCoefficients(c[..|c| - 1]);
    }
  }

  function MessageBits(m: seq<Byte>): (c: Bits)
    ensures |c| == 8 * |m|
  {
    if m == [] then [] else MessageBits(m[..|m| - 1]) + Coefficients(m[|m| - 1], 8)
  }

  // ---- The bit-serial register ----

  // x^16 = x^12 + x^5 + 1 modulo the generator
  predicate Tap(e: int) {
    e == 12 || e == 5 || e == 0
  }

  // The register moves up one place, taking in a bit; a coefficient of x^16 is folded back.
  function BitStep(r: Bits, b: bool): (r': Bits)
    requires |r| == 16
    ensures |r'| == 16
  {
    seq(16, i requires 0 <= i < 16 => (if i < 15 then r[i + 1] else b) != (r[0] && Tap(15 - i)))
  }

  function Run(r: Bits, bits: Bits): (r': Bits)
    requires |r| == 16
    ensures |r'| == 16
  {
    if bits == [] then r else BitStep(Run(r, bits[..|bits| - 1]), bits[|bits| - 1])
  }

  function Crc(m: seq<Byte>): (r: Bits)
    ensures |r| == 16
  {
    Run(Zeros(16), MessageBits(m))
  }

  // ---- The source ----

  // v >> k
  function Shift(v: int, k: nat): int
    decreases k, v
  {
    if k == 0 then v else Shift(v / 2, k - 1)
  }

  // (v >> k) & 1
  function Bit(v: int, k: nat): int {
    Shift(v, k) % 2
  }

  function BitOf(b: bool): int {
    if b then 1 else 0
  }

  // ^ on the values 0 and 1
  function Xor2(a: int, b: int): int {
    if a == b then 0 else 1
  }

  function Xor3(a: int, b: int, c: int): int {
    Xor2(Xor2(a, b), c)
  }

  function Xor4(a: int, b: int, c: int, d: int): int {
    Xor2(Xor3(a, b, c), d)
  }

  lemma {:induction false} ShiftNumber(c: Bits, k: nat)
    requires k < |c|
    ensures Shift(Number(c), k) == Number(c[..|c| - k])
    ensures Bit(Number(c), k) == BitOf(c[|c| - 1 - k])
  {
    if k == 0 {
      assert c[..|c|] == c;
    } else {
      var c' := c[..|c| - 1];
      ShiftNumber(c', k - 1);
      assert c'[..|c'| - (k - 1)] == c[..|c| - k];
    }
  }

  // Taking 2^w off a number leaves its low w bits alone.
  lemma {:induction false} SignedBit(v: int, k: nat, w: nat, p: nat)
    requires k < w && p == Power2(w)
    ensures Bit(v - p, k) == Bit(v, k)
    decreases k
  {
    if k > 0 {
      assert (v - p) / 2 == v / 2 - p / 2;
      SignedBit(v / 2, k - 1, w - 1, p / 2);
    }
  }

  // The coefficient that turn j moves over the top
  predicate Top(c: Bits, d: Bits, j: nat)
    requires |c| == 16 && j <= |d|
  {
    Run(c, d[..j])[0]
  }

  // After k turns, place i holds what was k places below it, corrected by the coefficients
  // that went over the top since.
  lemma {:induction false} TurnsAt(c: Bits, d: Bits, k: nat, i: nat)
    requires |c| == 16 && k <= |d| == 8 && i < 16
    ensures Run(c, d[..k])[i] == Odd4(if i + k < 16 then c[i + k] else d[i + k - 16],
      4 <= i + k && i < 4 && Top(c, d, i + k - 4),
      11 <= i + k && i < 11 && Top(c, d, i + k - 11),
      16 <= i + k && Top(c, d, i + k - 16))
  {
    if k == 0 {
      assert d[..0] == [];
    } else {
      hide Run, Top;
      TurnAt(c, d, k - 1, i);
      if i < 15 {
        TurnsAt(c, d, k - 1, i + 1);
      }
    }
  }

  lemma TurnAt(c: Bits, d: Bits, k: nat, i: nat)
    requires |c| == 16 && k < |d| && i < 16
    ensures Run(c, d[..k + 1])[i]
      == ((if i < 15 then Run(c, d[..k])[i + 1] else d[k]) != (Top(c, d, k) && (i == 3 || i == 10 || i == 15)))
  {
    RunPush(c, d, k);
  }

  lemma RunPush(r: Bits, b: Bits, k: nat)
    requires |r| == 16 && k < |b|
    ensures Run(r, b[..k + 1]) == BitStep(Run(r, b[..k]), b[k])
  {
    assert b[..k + 1][..k] == b[..k];
  }

  function Folded(c: Bits, j: nat): bool
    requires j < |c|
  {
    c[j] != (j >= 4 && c[j - 4])
  }

  // Place i of the register after a byte, in terms of the register before it
  predicate NetworkBit(c: Bits, d: Bits, i: nat)
    requires |c| == 16 && |d| == 8 && i < 16
  {
    Odd4(if i < 8 then c[i + 8] else d[i - 8], i < 4 && Folded(c, i + 4),
      3 <= i < 11 && Folded(c, i - 3), 8 <= i && Folded(c, i - 8))
  }

  // Eight turns of the register, one place of the result at a time
  lemma NetworkAt(c: Bits, d: Bits, i: nat)
    requires |c| == 16 && |d| == 8 && i < 16
    ensures Run(c, d)[i] == NetworkBit(c, d, i)
  {
    forall j: nat | j < 8 ensures Top(c, d, j) == Folded(c, j) {
      TurnsAt(c, d, j, 0);
      if j >= 4 { TurnsAt(c, d, j - 4, 0); }
    }
    assert d[..8] == d;
    hide Run, Folded, Top;
    TurnsAt(c, d, 8, i);
  }

  // Each XOR of the source is one place of the register after eight turns.
  lemma NetworkLow(data: int, crc: int, c: Bits, d: Bits)
    requires |c| == 16 && crc == Number(c)
    requires |d| == 8 && data == Number(d)
    ensures Xor3(Bit(data, 0), Bit(crc, 12), Bit(crc, 8)) == BitOf(Run(c, d)[15])
    ensures Xor3(Bit(data, 1), Bit(crc, 13), Bit(crc, 9)) == BitOf(Run(c, d)[14])
    ensures Xor3(Bit(data, 2), Bit(crc, 14), Bit(crc, 10)) == BitOf(Run(c, d)[13])
    ensures Xor3(Bit(data, 3), Bit(crc, 15), Bit(crc, 11)) == BitOf(Run(c, d)[12])
    ensures Xor2(Bit(data, 4), Bit(crc, 12)) == BitOf(Run(c, d)[11])
    ensures Xor4(Bit(data, 5), Bit(crc, 13), Bit(crc, 12), Bit(crc, 8)) == BitOf(Run(c, d)[10])
    ensures Xor4(Bit(data, 6), Bit(crc, 14), Bit(crc, 13), Bit(crc, 9)) == BitOf(Run(c, d)[9])
    ensures Xor4(Bit(data, 7), Bit(crc, 15), Bit(crc, 14), Bit(crc, 10)) == BitOf(Run(c, d)[8])
  {
    hide Bit, Number, Shift, Run;
    forall k: nat | k < 16 ensures Bit(crc, k) == BitOf(c[15 - k]) { ShiftNumber(c, k); }
    forall k: nat | k < 8 ensures Bit(data, k) == BitOf(d[7 - k]) { ShiftNumber(d, k); }
    forall i: nat | i < 16 ensures Run(c, d)[i] == NetworkBit(c, d, i) { NetworkAt(c, d, i); }
  }

  lemma NetworkHigh(data: int, crc: int, c: Bits, d: Bits)
    requires |c| == 16 && crc == Number(c)
    requires |d| == 8 && data == Number(d)
    ensures Xor3(Bit(crc, 0), Bit(crc, 15), Bit(crc, 11)) == BitOf(Run(c, d)[7])
    ensures Xor2(Bit(crc, 1), Bit(crc, 12)) == BitOf(Run(c, d)[6])
    ensures Xor2(Bit(crc, 2), Bit(crc, 13)) == BitOf(Run(c, d)[5])
    ensures Xor2(Bit(crc, 3), Bit(crc, 14)) == BitOf(Run(c, d)[4])
    ensures Xor4(Bit(crc, 4), Bit(crc, 15), Bit(crc, 12), Bit(crc, 8)) == BitOf(Run(c, d)[3])
    ensures Xor3(Bit(crc, 5), Bit(crc, 13), Bit(crc, 9)) == BitOf(Run(c, d)[2])
    ensures Xor3(Bit(crc, 6), Bit(crc, 14), Bit(crc, 10)) == BitOf(Run(c, d)[1])
    ensures Xor3(Bit(crc, 7), Bit(crc, 15), Bit(crc, 11)) == BitOf(Run(c, d)[0])
  {
    hide Bit, Number, Shift, Run;
    forall k: nat | k < 16 ensures Bit(crc, k) == BitOf(c[15 - k]) { ShiftNumber(c, k); }
    forall k: nat | k < 8 ensures Bit(data, k) == BitOf(d[7 - k]) { ShiftNumber(d, k); }
    forall i: nat | i < 16 ensures Run(c, d)[i] == NetworkBit(c, d, i) { NetworkAt(c, d, i); }
  }

  // lora_crc16, on the register as an int and a data byte as a char, whose sign depends on the
  // platform; the bits of both are ghost arguments.
  method LoraCrc16(data: int, crc: int, ghost c: Bits, ghost d: Bits) returns (next: int)
    requires |c| == 16 && crc == Number(c)
    requires |d| == 8 && (data == Number(d) || data == Number(d) - 256)
    ensures next == Number(Run(c, d))
  {
    next := Xor3(Bit(data, 0), Bit(crc, 12), Bit(crc, 8));
    next := next + Xor3(Bit(data, 1), Bit(crc, 13), Bit(crc, 9)) * 2;
    next := next + Xor3(Bit(data, 2), Bit(crc, 14), Bit(crc, 10)) * 4;
    next := next + Xor3(Bit(data, 3), Bit(crc, 15), Bit(crc, 11)) * 8;
    next := next + Xor2(Bit(data, 4), Bit(crc, 12)) * 16;
    next := next + Xor4(Bit(data, 5), Bit(crc, 13), Bit(crc, 12), Bit(crc, 8)) * 32;
    next := next + Xor4(Bit(data, 6), Bit(crc, 14), Bit(crc, 13), Bit(crc, 9)) * 64;
    next := next + Xor4(Bit(data, 7), Bit(crc, 15), Bit(crc, 14), Bit(crc, 10)) * 128;
    next := next + Xor3(Bit(crc, 0), Bit(crc, 15), Bit(crc, 11)) * 256;
    next := next + Xor2(Bit(crc, 1), Bit(crc, 12)) * 512;
    next := next + Xor2(Bit(crc, 2), Bit(crc, 13)) * 1024;
    next := next + Xor2(Bit(crc, 3), Bit(crc, 14)) * 2048;
    next := next + Xor4(Bit(crc, 4), Bit(crc, 15), Bit(crc, 12), Bit(crc, 8)) * 4096;
    next := next + Xor3(Bit(crc, 5), Bit(crc, 13), Bit(crc, 9)) * 8192;
    next := next + Xor3(Bit(crc, 6), Bit(crc, 14), Bit(crc, 10)) * 16384;
    next := next + Xor3(Bit(crc, 7), Bit(crc, 15), Bit(crc, 11)) * 32768;
    ghost var r := Run(c, d);
    forall k: nat | k < 8 ensures Bit(data, k) == Bit(Number(d), k) {
      SignedBit(Number(d), k, 8, 256);
    }
    hide Bit;
    NetworkLow(Number(d), crc, c, d);
    NetworkHigh(Number(d), crc, c, d);
    LowByte(r);
    HighByte(r);
    assert Low(r, 16) == Number(r);
  }

  function Power2(n: nat): nat {
    if n == 0 then 1 else 2 * Power2(n - 1)
  }

  // The number that the low k bits denote
  function Low(r: Bits, k: nat): nat
    requires k <= |r|
  {
    Number(r[|r| - k..])
  }

  lemma {:induction false} Place(r: Bits, k: nat, i: nat, p: nat)
    requires i + 1 + k == |r| && p == Power2(k)
    ensures Low(r, k + 1) == Low(r, k) + BitOf(r[i]) * p
  {
    if k > 0 {
      var r' := r[..|r| - 1];
      Place(r', k - 1, i, p / 2);
      assert r[i..][..k] == r[i..i + k] == r'[i..];
      assert r[i + 1..][..k - 1] == r[i + 1..i + k] == r'[i + 1..];
    }
  }

  lemma LowByte(r: Bits)
    requires |r| == 16
    ensures Low(r, 8) == BitOf(r[15]) + BitOf(r[14]) * 2 + BitOf(r[13]) * 4 + BitOf(r[12]) * 8
      + BitOf(r[11]) * 16 + BitOf(r[10]) * 32 + BitOf(r[9]) * 64 + BitOf(r[8]) * 128
  {
    assert Low(r, 0) == 0;
    hide Low;
    Place(r, 0, 15, 1);
    Place(r, 1, 14, 2);
    Place(r, 2, 13, 4);
    Place(r, 3, 12, 8);
    Place(r, 4, 11, 16);
    Place(r, 5, 10, 32);
    Place(r, 6, 9, 64);
    Place(r, 7, 8, 128);
  }

  lemma HighByte(r: Bits)
    requires |r| == 16
    ensures Low(r, 16) == Low(r, 8) + BitOf(r[7]) * 256 + BitOf(r[6]) * 512 + BitOf(r[5]) * 1024 + BitOf(r[4]) * 2048
      + BitOf(r[3]) * 4096 + BitOf(r[2]) * 8192 + BitOf(r[1]) * 16384 + BitOf(r[0]) * 32768
  {
    hide Low;
    Place(r, 8, 7, 256);
    Place(r, 9, 6, 512);
    Place(r, 10, 5, 1024);
    Place(r, 11, 4, 2048);
    Place(r, 12, 3, 4096);
    Place(r, 13, 2, 8192);
    Place(r, 14, 1, 16384);
    Place(r, 15, 0, 32768);
  }

  lemma {:induction false} NumberOfLowBits(n: nat, w: nat, p: nat)
    requires n < p && p == Power2(w)
    ensures Number(Coefficients(n, w)) == n
  {
    if w > 0 {
      NumberOfLowBits(n / 2, w - 1, p / 2);
    }
  }

  lemma CrcPush(m: seq<Byte>, b: Byte)
    ensures Crc(m + [b]) == Run(Crc(m), Coefficients(b, 8))
    ensures Number(Coefficients(b, 8)) == b
  {
    assert (m + [b])[..|m|] == m;
    RunConcat(Zeros(16), MessageBits(m), Coefficients(b, 8));
    NumberOfLowBits(b, 8, 256);
  }

  // sx1302_lora_payload_crc
  method Sx1302LoraPayloadCrc(data: array<Byte>, size: nat) returns (crc: int)
    requires size <= data.Length
    ensures crc == Number(Crc(data[..size]))
  {
    crc := 0;
    NumberOfZeros(16);
    var i := 0;
    while i < size
      invariant i <= size && crc == Number(Crc(data[..i]))
    {
      assert data[..i + 1] == data[..i] + [data[i]];
      CrcPush(data[..i], data[i]);
      var signed: int := data[i];
      if signed >= 128 {
        signed := signed - 256;
      }
      crc := LoraCrc16(signed, crc, Crc(data[..i]), Coefficients(data[i], 8));
      i := i + 1;
    }
  }

  lemma {:induction false} NumberOfZeros(n: nat)
    ensures Number(Zeros(n)) == 0
  {
    if n > 0 {
      NumberOfZeros(n - 1);
      assert Zeros(n)[..n - 1] == Zeros(n - 1);
    }
  }

  lemma {:induction false} RunConcat(r: Bits, a: Bits, b: Bits)
    requires |r| == 16
    ensures Run(r, a + b) == Run(Run(r, a), b)
  {
    if b == [] {
      assert a + b == a;
    } else {
      var b' := b[..|b| - 1];
      RunConcat(r, a, b');
      assert (a + b)[..|a + b| - 1] == a + b';
    }
  }

  // ---- The CRC is the remainder of polynomial division ----

  // The coefficients that went over the top, one per message bit
  function Quotient(m: Bits): (q: Bits)
    ensures |q| == |m|
  {
    if m == [] then [] else
    var m' := m[..|m| - 1];
    Quotient(m') + [Run(Zeros(16), m')[0]]
  }

  // Appending a bit multiplies by x and adds the bit.
  lemma CoefficientPush(a: Bits, b: bool, e: int)
    ensures Coefficient(a + [b], e) == if e == 0 then b else Coefficient(a, e - 1)
  {}

  lemma StepCoefficient(r: Bits, b: bool, e: int)
    requires |r| == 16
    ensures Coefficient(BitStep(r, b), e) ==
      if e == 0 then b != r[0]
      else if e == 16 then Coefficient(r, 15) != r[0]
      else Coefficient(r, e - 1) != (r[0] && Tap(e))
  {}

  lemma DivideOne(q: Bits, m: Bits, r: Bits, b: bool)
    requires |r| == 16 && Divides(q, m, r)
    ensures Divides(q + [r[0]], m + [b], BitStep(r, b))
  {
    forall e: int ensures Coefficient(m + [b], e)
      == (ProductCoefficient(q + [r[0]], e) != Coefficient(BitStep(r, b), e))
    {
      CoefficientPush(m, b, e);
      CoefficientPush(q, r[0], e - 16);
      CoefficientPush(q, r[0], e - 12);
      CoefficientPush(q, r[0], e - 5);
      CoefficientPush(q, r[0], e);
      StepCoefficient(r, b, e);
      hide BitStep, Coefficient;
      assert Coefficient(m, e - 1) == (ProductCoefficient(q, e - 1) != Coefficient(r, e - 1));
    }
  }

  lemma {:induction false} RunDivides(m: Bits)
    ensures Divides(Quotient(m), m, Run(Zeros(16), m))
  {
    if m != [] {
      var m', b := m[..|m| - 1], m[|m| - 1];
      hide Divides, BitStep;
      RunDivides(m');
      DivideOne(Quotient(m'), m', Run(Zeros(16), m'), b);
      assert m == m' + [b];
      assert Quotient(m) == Quotient(m') + [Run(Zeros(16), m')[0]];
    }
  }

  // Above degree 15 the remainder contributes nothing, so the quotient is determined from its
  // highest coefficient down.
  lemma {:induction false} QuotientUnique(m: Bits, q: Bits, r: Bits, q': Bits, r': Bits, e: nat)
    requires |q| == |q'| == |m| && |r| == |r'| == 16
    requires Divides(q, m, r) && Divides(q', m, r')
    ensures Coefficient(q, e) == Coefficient(q', e)
    decreases |m| - e
  {
    if e < |m| {
      QuotientUnique(m, q, r, q', r', e + 4);
      QuotientUnique(m, q, r, q', r', e + 11);
      QuotientUnique(m, q, r, q', r', e + 16);
      assert Coefficient(m, e + 16) == (ProductCoefficient(q, e + 16) != Coefficient(r, e + 16));
      assert Coefficient(m, e + 16) == (ProductCoefficient(q', e + 16) != Coefficient(r', e + 16));
    }
  }

  // The register after a message is its remainder, and nothing else is.
  lemma CrcIsTheRemainder(m: Bits, r: Bits)
    ensures IsRemainder(m, r) <==> r == Run(Zeros(16), m)
  {
    RunDivides(m);
    var q', r' := Quotient(m), Run(Zeros(16), m);
    if IsRemainder(m, r) {
      var q: Bits :| |q| == |m| && Divides(q, m, r);
      hide Divides, Run, Quotient;
      forall i: nat | i < 16 ensures r[i] == r'[i] {
        SameRemainder(m, q, r, q', r', i);
      }
    }
  }

  lemma SameRemainder(m: Bits, q: Bits, r: Bits, q': Bits, r': Bits, i: nat)
    requires |q| == |q'| == |m| && |r| == |r'| == 16 && i < 16
    requires Divides(q, m, r) && Divides(q', m, r')
    ensures r[i] == r'[i]
  {
    var e := 15 - i;
    if e >= 12 { QuotientUnique(m, q, r, q', r', e - 12); }
    if e >= 5 { QuotientUnique(m, q, r, q', r', e - 5); }
    QuotientUnique(m, q, r, q', r', e);
    assert Coefficient(m, e) == (ProductCoefficient(q, e) != Coefficient(r, e));
    assert Coefficient(m, e) == (ProductCoefficient(q', e) != Coefficient(r', e));
  }

  // ---- Linearity and error detection ----

  lemma BitStepLinear(r: Bits, s: Bits, a: bool, b: bool)
    requires |r| == |s| == 16
    ensures BitStep(Xor(r, s), a != b) == Xor(BitStep(r, a), BitStep(s, b))
  {}

  lemma {:induction false} RunLinear(r: Bits, s: Bits, a: Bits, b: Bits)
    requires |r| == |s| == 16 && |a| == |b|
    ensures Run(Xor(r, s), Xor(a, b)) == Xor(Run(r, a), Run(s, b))
  {
    if a != [] {
      var n := |a| - 1;
      RunLinear(r, s, a[..n], b[..n]);
      assert Xor(a, b)[..n] == Xor(a[..n], b[..n]);
      BitStepLinear(Run(r, a[..n]), Run(s, b[..n]), a[n], b[n]);
    }
  }

  // ^ on two bytes and on two messages
  function XorByte(x: Byte, y: Byte): Byte {
    NumberBound(Xor(Coefficients(x, 8), Coefficients(y, 8)));
    Number(Xor(Coefficients(x, 8), Coefficients(y, 8)))
  }

  function XorMessage(a: seq<Byte>, b: seq<Byte>): (m: seq<Byte>)
    requires |a| == |b|
    ensures |m| == |a|
  {
    seq(|a|, i requires 0 <= i < |a| => XorByte(a[i], b[i]))
  }

  lemma {:induction false} NumberBound(c: Bits)
    ensures Number(c) < Power2(|c|)
    ensures |c| == 8 ==> Number(c) < 256
  {
    if c != [] {
      NumberBound(c[..|c| - 1]);
    }
    assert Power2(8) == 256;
  }

  lemma {:induction false} BitsOfXor(a: seq<Byte>, b: seq<Byte>)
    requires |a| == |b|
    ensures MessageBits(XorMessage(a, b)) == Xor(MessageBits(a), MessageBits(b))
  {
    if a != [] {
      var n := |a| - 1;
      BitsOfXor(a[..n], b[..n]);
      assert XorMessage(a, b)[..n] == XorMessage(a[..n], b[..n]);
      NumberOfCoefficients(Xor(Coefficients(a[n], 8), Coefficients(b[n], 8)));
      XorConcat(MessageBits(a[..n]), MessageBits(b[..n]), Coefficients(a[n], 8), Coefficients(b[n], 8));
    }
  }

  lemma XorConcat(a: Bits, b: Bits, c: Bits, d: Bits)
    requires |a| == |b| && |c| == |d|
    ensures Xor(a + c, b + d) == Xor(a, b) + Xor(c, d)
  {}

  // The CRC is linear: that of the bitwise difference of two messages is the difference of
  // their CRCs.
  lemma CrcLinear(a: seq<Byte>, b: seq<Byte>)
    requires |a| == |b|
    ensures Crc(XorMessage(a, b)) == Xor(Crc(a), Crc(b))
  {
    BitsOfXor(a, b);
    RunLinear(Zeros(16), Zeros(16), MessageBits(a), MessageBits(b));
    assert Xor(Zeros(16), Zeros(16)) == Zeros(16);
  }

  lemma BitStepInjective(r: Bits, s: Bits, b: bool)
    requires |r| == |s| == 16 && BitStep(r, b) == BitStep(s, b)
    ensures r == s
  {
    assert BitStep(r, b)[15] == (b != r[0]) && BitStep(s, b)[15] == (b != s[0]);
    forall i | 0 < i < 16 ensures r[i] == s[i] {
      assert BitStep(r, b)[i - 1] == (r[i] != (r[0] && Tap(16 - i)));
      assert BitStep(s, b)[i - 1] == (s[i] != (s[0] && Tap(16 - i)));
    }
  }

  // Different registers stay different over any common suffix.
  lemma {:induction false} RunInjective(r: Bits, s: Bits, bits: Bits)
    requires |r| == |s| == 16 && Run(r, bits) == Run(s, bits)
    ensures r == s
  {
    if bits != [] {
      var n := |bits| - 1;
      BitStepInjective(Run(r, bits[..n]), Run(s, bits[..n]), bits[n]);
      RunInjective(r, s, bits[..n]);
    }
  }

  // Up to 16 bits only move up through the cleared register.
  lemma {:induction false} ShortRun(d: Bits)
    requires |d| <= 16
    ensures Run(Zeros(16), d) == Zeros(16 - |d|) + d
  {
    if d != [] {
      var n := |d| - 1;
      ShortRun(d[..n]);
      var r := Run(Zeros(16), d[..n]);
      assert !r[0];
      assert forall i: nat :: i < 16 ==> BitStep(r, d[n])[i] == (Zeros(15 - n) + d)[i];
    }
  }

  // Distinct windows of at most 16 bits lead to distinct registers.
  lemma {:induction false} WindowInjective(r: Bits, u: Bits, v: Bits)
    requires |r| == 16 && |u| == |v| <= 16 && Run(r, u) == Run(r, v)
    ensures u == v
  {
    var d := Xor(u, v);
    RunLinear(r, r, u, v);
    assert Xor(r, r) == Zeros(16);
    assert Xor(Run(r, u), Run(r, v)) == Zeros(16);
    ShortRun(d);
    forall i | 0 <= i < |u| ensures u[i] == v[i] {
      assert (Zeros(16 - |d|) + d)[16 - |d| + i] == d[i];
    }
  }

  lemma SplitLast(a: seq<Byte>)
    requires a != []
    ensures var x, n := MessageBits(a), |a| - 1;
      x[..8 * n] == MessageBits(a[..n]) && x[8 * n..] == Coefficients(a[n], 8)
  {}

  lemma {:induction false} MessageBitsInjective(a: seq<Byte>, b: seq<Byte>)
    requires |a| == |b| && MessageBits(a) == MessageBits(b)
    ensures a == b
  {
    if a != [] {
      var n := |a| - 1;
      SplitLast(a);
      SplitLast(b);
      MessageBitsInjective(a[..n], b[..n]);
      ByteInjective(a[n], b[n]);
      assert a == a[..n] + [a[n]] && b == b[..n] + [b[n]];
    }
  }

  lemma ByteInjective(x: Byte, y: Byte)
    requires Coefficients(x, 8) == Coefficients(y, 8)
    ensures x == y
  {
    NumberOfLowBits(x, 8, 256);
    NumberOfLowBits(y, 8, 256);
  }

  // Two different messages of equal length whose bits differ only inside a window of at most
  // 16 consecutive bits have different CRCs.
  lemma {:induction false} BurstDetected(a: seq<Byte>, b: seq<Byte>, from: nat, to: nat)
    requires |a| == |b| && a != b
    requires from <= to <= 8 * |a| && to - from <= 16
    requires MessageBits(a)[..from] == MessageBits(b)[..from]
    requires MessageBits(a)[to..] == MessageBits(b)[to..]
    ensures Number(Crc(a)) != Number(Crc(b))
  {
    var x, y := MessageBits(a), MessageBits(b);
    if Number(Crc(a)) == Number(Crc(b)) {
      NumberOfCoefficients(Crc(a));
      NumberOfCoefficients(Crc(b));
      RunInThree(x, from, to);
      RunInThree(y, from, to);
      var r := Run(Zeros(16), x[..from]);
      RunInjective(Run(r, x[from..to]), Run(r, y[from..to]), x[to..]);
      WindowInjective(r, x[from..to], y[from..to]);
      SameInThree(x, y, from, to);
      MessageBitsInjective(a, b);
    }
  }

  lemma SameInThree(x: Bits, y: Bits, from: nat, to: nat)
    requires |x| == |y| && from <= to <= |x|
    requires x[..from] == y[..from] && x[from..to] == y[from..to] && x[to..] == y[to..]
    ensures x == y
  {}

  lemma {:induction false} RunSplit(r: Bits, m: Bits, k: nat)
    requires |r| == 16 && k <= |m|
    ensures Run(r, m) == Run(Run(r, m[..k]), m[k..])
  {
    if k == |m| {
      assert m[..k] == m;
    } else {
      var n := |m| - 1;
      RunSplit(r, m[..n], k);
      assert m[..n][..k] == m[..k] && m[..n][k..] == m[k..][..n - k];
    }
  }

  lemma RunInThree(m: Bits, from: nat, to: nat)
    requires from <= to <= |m|
    ensures Run(Zeros(16), m) == Run(Run(Run(Zeros(16), m[..from]), m[from..to]), m[to..])
  {
    hide Run;
    RunSplit(Zeros(16), m, to);
    RunSplit(Zeros(16), m[..to], from);
    assert m[..to][..from] == m[..from] && m[..to][from..] == m[from..to];
  }

  // The generator itself, 17 bits long
  function Generator(): (g: Bits)
    ensures |g| == 17
  {
    seq(17, i => i == 0 || i == 4 || i == 11 || i == 16)
  }

  lemma GeneratorCancels()
    ensures Run(Zeros(16), Generator()) == Zeros(16)
  {
    var g := Generator();
    ShortRun(g[..16]);
    RunPush(Zeros(16), g, 16);
    assert g[..17] == g && Zeros(0) + g[..16] == g[..16];
    forall i | 0 <= i < 16 ensures !BitStep(g[..16], g[16])[i] {
      assert g[..16][0] && (i < 15 ==> g[..16][i + 1] == g[i + 1]);
    }
  }

  lemma {:induction false} RunOfZeros(n: nat)
    ensures Run(Zeros(16), Zeros(n)) == Zeros(16)
  {
    if n > 0 {
      RunOfZeros(n - 1);
      assert Zeros(n)[..n - 1] == Zeros(n - 1);
      assert BitStep(Zeros(16), false) == Zeros(16);
    }
  }

  // The bound of 16 bits is sharp: a burst of 17 in the shape of the generator is never
  // detected, in any message and at any place.
  lemma GeneratorBurstMissed(m: Bits, n: nat, k: nat)
    requires |m| == n + 17 + k
    ensures Run(Zeros(16), Xor(m, Zeros(n) + Generator() + Zeros(k))) == Run(Zeros(16), m)
  {
    var p := Zeros(n) + Generator() + Zeros(k);
    RunOfZeros(n);
    RunOfZeros(k);
    GeneratorCancels();
    RunConcat(Zeros(16), Zeros(n) + Generator(), Zeros(k));
    RunConcat(Zeros(16), Zeros(n), Generator());
    RunLinear(Zeros(16), Zeros(16), m, p);
    assert Xor(Zeros(16), Zeros(16)) == Zeros(16);
    assert Xor(Run(Zeros(16), m), Zeros(16)) == Run(Zeros(16), m);
  }

  function Parity(b: Bits): bool {
    b != [] && Parity(b[..|b| - 1]) != b[|b| - 1]
  }

  lemma {:induction false} ParityXor(a: Bits, b: Bits)
    requires |a| == |b|
    ensures Parity(Xor(a, b)) == (Parity(a) != Parity(b))
  {
    if a != [] {
      var n := |a| - 1;
      ParityXor(a[..n], b[..n]);
      assert Xor(a, b)[..n] == Xor(a[..n], b[..n]);
    }
  }

  lemma {:induction false} ParityConcat(a: Bits, b: Bits)
    ensures Parity(a + b) == (Parity(a) != Parity(b))
  {
    if b == [] {
      assert a + b == a;
    } else {
      var n := |b| - 1;
      ParityConcat(a, b[..n]);
      assert (a + b)[..|a| + n] == a + b[..n];
    }
  }

  lemma {:induction false} ParityZeros(n: nat)
    ensures !Parity(Zeros(n))
  {
    if n > 0 {
      ParityZeros(n - 1);
      assert Zeros(n)[..n - 1] == Zeros(n - 1);
    }
  }

  lemma ParityPush(b: Bits, c: bool)
    ensures Parity(b + [c]) == (Parity(b) != c)
  {}

  function Taps(c: bool): (t: Bits)
    ensures |t| == 16
  {
    if c then Zeros(3) + [true] + Zeros(6) + [true] + Zeros(4) + [true] else Zeros(16)
  }

  lemma BitStepXor(r: Bits, b: bool)
    requires |r| == 16
    ensures BitStep(r, b) == Xor(r[1..] + [b], Taps(r[0]))
  {}

  lemma TapsParity(c: bool)
    ensures Parity(Taps(c)) == c
  {
    var a := Zeros(3) + [true];
    var b := a + Zeros(6) + [true];
    if c {
      assert Taps(c) == b + Zeros(4) + [true];
      hide Parity, Zeros;
      ParityZeros(3); ParityPush(Zeros(3), true);
      ParityZeros(6); ParityConcat(a, Zeros(6)); ParityPush(a + Zeros(6), true);
      ParityZeros(4); ParityConcat(b, Zeros(4)); ParityPush(b + Zeros(4), true);
    } else {
      ParityZeros(16);
    }
  }

  // Four terms: the generator has even parity, so a turn keeps the parity of what it holds.
  lemma BitStepParity(r: Bits, b: bool)
    requires |r| == 16
    ensures Parity(BitStep(r, b)) == (Parity(r) != b)
  {
    hide *;
    BitStepXor(r, b);
    TapsParity(r[0]);
    ParityXor(r[1..] + [b], Taps(r[0]));
    ParityPush(r[1..], b);
    ParityFront(r);
  }

  lemma ParityFront(r: Bits)
    requires r != []
    ensures Parity(r) == (r[0] != Parity(r[1..]))
  {
    assert r == ([] + [r[0]]) + r[1..];
    ParityPush([], r[0]);
    ParityConcat([] + [r[0]], r[1..]);
  }

  lemma {:induction false} RunParity(r: Bits, m: Bits)
    requires |r| == 16
    ensures Parity(Run(r, m)) == (Parity(r) != Parity(m))
  {
    if m != [] {
      var n := |m| - 1;
      RunParity(r, m[..n]);
      BitStepParity(Run(r, m[..n]), m[n]);
    }
  }

  // An odd number of differing bits, wherever they are, is always detected.
  lemma {:induction false} OddErrorsDetected(a: seq<Byte>, b: seq<Byte>)
    requires |a| == |b| && Parity(Xor(MessageBits(a), MessageBits(b)))
    ensures Number(Crc(a)) != Number(Crc(b))
  {
    RunParity(Zeros(16), MessageBits(a));
    RunParity(Zeros(16), MessageBits(b));
    ParityXor(MessageBits(a), MessageBits(b));
    NumberOfCoefficients(Crc(a));
    NumberOfCoefficients(Crc(b));
  }
}
