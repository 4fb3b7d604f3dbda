/**
  How far apart messages of one CRC are: the distance of the payload CRC of
  src/tools/payload_crc.c on the payloads its size argument allows.
*/
module PayloadDistance {
  import opened Common
  import opened PayloadCrc

  // ---- The register as a machine word ----

  // One turn that takes in a zero
  function Turn(s: bv16): bv16 {
    var t := s >> 15;
    (s << 1) ^ (t << 12) ^ (t << 5) ^ t
  }

  function Turns(s: bv16, n: nat): bv16 {
    if n == 0 then s else Turn(Turns(s, n - 1))
  }

  // Eight turns at once
  function Turn8(s: bv16): bv16 {
    var t := (s >> 8) ^ (s >> 12);
    (s << 8) ^ (t << 12) ^ (t << 5) ^ t
  }

  // Its coefficients
  datatype Register = Register(c15: bool, c14: bool, c13: bool, c12: bool, c11: bool, c10: bool, c9: bool,
                               c8: bool, c7: bool, c6: bool, c5: bool, c4: bool, c3: bool, c2: bool, c1: bool,
                               c0: bool)

  function RegisterOf(s: bv16): Register {
    Register(s & 0x8000 != 0, s & 0x4000 != 0, s & 0x2000 != 0, s & 0x1000 != 0, s & 0x0800 != 0,
             s & 0x0400 != 0, s & 0x0200 != 0, s & 0x0100 != 0, s & 0x0080 != 0, s & 0x0040 != 0,
             s & 0x0020 != 0, s & 0x0010 != 0, s & 0x0008 != 0, s & 0x0004 != 0, s & 0x0002 != 0,
             s & 0x0001 != 0)
  }

  lemma SameWord(s: bv16, t: bv16)
    requires RegisterOf(s) == RegisterOf(t)
    ensures s == t
  {}

  // What one, two, four and eight turns do to the coefficients
  function After1(r: Register): Register {
    Register(r.c14, r.c13, r.c12, r.c15 != r.c11, r.c10, r.c9, r.c8, r.c7, r.c6, r.c5, r.c15 != r.c4, r.c3,
             r.c2, r.c1, r.c0, r.c15)
  }

  function After2(r: Register): Register {
    Register(r.c13, r.c12, r.c15 != r.c11, r.c14 != r.c10, r.c9, r.c8, r.c7, r.c6, r.c5, r.c15 != r.c4,
             r.c14 != r.c3, r.c2, r.c1, r.c0, r.c15, r.c14)
  }

  function After4(r: Register): Register {
    Register(r.c15 != r.c11, r.c14 != r.c10, r.c13 != r.c9, r.c12 != r.c8, r.c7, r.c6, r.c5, r.c15 != r.c4,
             r.c14 != r.c3, r.c13 != r.c2, r.c12 != r.c1, r.c0, r.c15, r.c14, r.c13, r.c12)
  }

  function After8(r: Register): Register {
    Register((r.c15 != r.c11) != r.c7, (r.c14 != r.c10) != r.c6, (r.c13 != r.c9) != r.c5,
             ((r.c15 != r.c12) != r.c8) != r.c4, r.c14 != r.c3, r.c13 != r.c2, r.c12 != r.c1,
             (r.c15 != r.c11) != r.c0, (r.c15 != r.c14) != r.c10, (r.c14 != r.c13) != r.c9,
             (r.c13 != r.c12) != r.c8, r.c12, r.c15 != r.c11, r.c14 != r.c10, r.c13 != r.c9, r.c12 != r.c8)
  }

  lemma TurnIsAfter1(s: bv16)
    ensures RegisterOf(Turn(s)) == After1(RegisterOf(s))
  {}

  lemma Turn8IsAfter8(s: bv16)
    ensures RegisterOf(Turn8(s)) == After8(RegisterOf(s))
  {}

  lemma TwiceAfter1(r: Register)
    ensures After1(After1(r)) == After2(r)
  {}

  lemma TwiceAfter2(r: Register)
    ensures After2(After2(r)) == After4(r)
  {}

  lemma TwiceAfter4(r: Register)
    ensures After4(After4(r)) == After8(r)
  {}

  lemma FourTurns(s: bv16)
    ensures RegisterOf(Turn(Turn(Turn(Turn(s))))) == After4(RegisterOf(s))
  {
    hide *;
    TurnIsAfter1(s);
    TurnIsAfter1(Turn(s));
    TurnIsAfter1(Turn(Turn(s)));
    TurnIsAfter1(Turn(Turn(Turn(s))));
    TwiceAfter1(RegisterOf(s));
    TwiceAfter1(RegisterOf(Turn(Turn(s))));
    TwiceAfter2(RegisterOf(s));
  }

  lemma EightTurns(s: bv16)
    ensures Turn(Turn(Turn(Turn(Turn(Turn(Turn(Turn(s)))))))) == Turn8(s)
  {
    hide *;
    FourTurns(s);
    FourTurns(Turn(Turn(Turn(Turn(s)))));
    TwiceAfter4(RegisterOf(s));
    Turn8IsAfter8(s);
    SameWord(Turn(Turn(Turn(Turn(Turn(Turn(Turn(Turn(s)))))))), Turn8(s));
  }

  // The word as the bit string that the register is elsewhere
  function Word(s: bv16): (r: Bits)
    ensures |r| == 16
  {
    seq(16, i requires 0 <= i < 16 => Set(s, Mask(i)))
  }

  predicate Set(s: bv16, m: bv16) {
    s & m != 0
  }

  function Mask(i: nat): bv16 {
    if i == 0 then 0x8000 else if i == 1 then 0x4000 else if i == 2 then 0x2000 else if i == 3 then 0x1000
    else if i == 4 then 0x0800 else if i == 5 then 0x0400 else if i == 6 then 0x0200 else if i == 7 then 0x0100
    else if i == 8 then 0x0080 else if i == 9 then 0x0040 else if i == 10 then 0x0020 else if i == 11 then 0x0010
    else if i == 12 then 0x0008 else if i == 13 then 0x0004 else if i == 14 then 0x0002 else 0x0001
  }

  lemma MaskShifts(i: nat)
    requires i < 15
    ensures Mask(i) == Mask(i + 1) << 1 && Mask(i) != 0
  {}

  lemma MaskTaps(i: nat)
    requires i < 16
    ensures Set(Mask(i), 0x1021) == Tap(15 - i) && Mask(i) & (Mask(i) - 1) == 0
  {}

  lemma TurnedBit(s: bv16, m: bv16, n: bv16)
    requires m == n << 1 && m != 0 && m & (m - 1) == 0 && n & (n - 1) == 0
    ensures Set(Turn(s), m) == (Set(s, n) != (Set(s, 0x8000) && Set(m, 0x1021)))
  {}

  lemma TurnedLow(s: bv16)
    ensures Set(Turn(s), 1) == Set(s, 0x8000)
  {}

  lemma TurnedPlace(s: bv16, i: nat)
    requires i < 16
    ensures Word(Turn(s))[i] == ((i < 15 && Word(s)[i + 1]) != (Word(s)[0] && Tap(15 - i)))
  {
    hide Turn, Mask, Set;
    Ends();
    MaskTaps(i);
    if i == 15 {
      TurnedLow(s);
    } else {
      MaskTaps(i + 1);
      MaskShifts(i);
      TurnedBit(s, Mask(i), Mask(i + 1));
    }
  }

  lemma Ends()
    ensures Mask(0) == 0x8000 && Mask(15) == 1
  {}

  lemma WordTurns(s: bv16)
    ensures BitStep(Word(s), false) == Word(Turn(s))
  {
    hide Turn, Word, Tap;
    forall i | 0 <= i < 16 ensures BitStep(Word(s), false)[i] == Word(Turn(s))[i] {
      TurnedPlace(s, i);
    }
  }

  lemma {:induction false} RunIsTurns(s: bv16, n: nat)
    ensures Run(Word(s), Zeros(n)) == Word(Turns(s, n))
  {
    hide Word, Turn, BitStep;
    if n > 0 {
      RunIsTurns(s, n - 1);
      assert Zeros(n)[..n - 1] == Zeros(n - 1);
      WordTurns(Turns(s, n - 1));
    }
  }

  lemma {:induction false} TurnsConcat(s: bv16, m: nat, n: nat)
    ensures Turns(s, m + n) == Turns(Turns(s, m), n)
  {
    hide Turn;
    if n > 0 {
      TurnsConcat(s, m, n - 1);
    }
  }

  // ---- x^k is not 1 ----

  predicate Avoids(s: bv16, n: nat) {
    forall k :: 0 <= k < n ==> Turns(s, k) != 1
  }

  lemma AvoidsOn(s: bv16, m: nat, n: nat)
    requires Avoids(s, m) && Avoids(Turns(s, m), n)
    ensures Avoids(s, m + n)
  {
    hide Turns;
    forall k | 0 <= k < m + n ensures Turns(s, k) != 1 {
      if k >= m {
        TurnsConcat(s, m, k - m);
      }
    }
  }

  // The words that fewer than eight turns bring to 1
  predicate Near(s: bv16) {
    s in {0x0001, 0x8810, 0x4408, 0x2204, 0x1102, 0x0881, 0x8C50, 0x4628}
  }

  lemma Backwards(s: bv16)
    ensures Turn(s) == 1 ==> s == 0x8810
    ensures Turn(s) == 0x8810 ==> s == 0x4408
    ensures Turn(s) == 0x4408 ==> s == 0x2204
    ensures Turn(s) == 0x2204 ==> s == 0x1102
    ensures Turn(s) == 0x1102 ==> s == 0x0881
    ensures Turn(s) == 0x0881 ==> s == 0x8C50
    ensures Turn(s) == 0x8C50 ==> s == 0x4628
  {}

  lemma NearExact(s: bv16)
    ensures !Near(s) ==> Avoids(s, 8)
    ensures Turns(s, 8) == Turn8(s)
  {
    hide Turn, Turn8;
    EightTurns(s);
    assert Turns(s, 1) == Turn(s) && Turns(s, 2) == Turn(Turns(s, 1)) && Turns(s, 3) == Turn(Turns(s, 2));
    assert Turns(s, 4) == Turn(Turns(s, 3)) && Turns(s, 5) == Turn(Turns(s, 4)) && Turns(s, 6) == Turn(Turns(s, 5));
    assert Turns(s, 7) == Turn(Turns(s, 6)) && Turns(s, 8) == Turn(Turns(s, 7));
    Backwards(s);
    Backwards(Turns(s, 1));
    Backwards(Turns(s, 2));
    Backwards(Turns(s, 3));
    Backwards(Turns(s, 4));
    Backwards(Turns(s, 5));
    Backwards(Turns(s, 6));
  }

  // The same for 16, 32 and 64 turns
  function Turn16(s: bv16): bv16 { Turn8(Turn8(s)) }
  function Turn32(s: bv16): bv16 { Turn16(Turn16(s)) }
  function Turn64(s: bv16): bv16 { Turn32(Turn32(s)) }

  predicate Far16(s: bv16) { !Near(s) && !Near(Turn8(s)) }
  predicate Far32(s: bv16) { Far16(s) && Far16(Turn16(s)) }
  predicate Far64(s: bv16) { Far32(s) && Far32(Turn32(s)) }

  lemma Far16Avoids(s: bv16)
    ensures Turns(s, 16) == Turn16(s) && (Far16(s) ==> Avoids(s, 16))
  {
    hide Turn8, Near, Turns, Avoids;
    NearExact(s);
    NearExact(Turn8(s));
    TurnsConcat(s, 8, 8);
    if Far16(s) {
      AvoidsOn(s, 8, 8);
    }
  }

  lemma Far32Avoids(s: bv16)
    ensures Turns(s, 32) == Turn32(s) && (Far32(s) ==> Avoids(s, 32))
  {
    hide Turn16, Far16, Turns, Avoids;
    Far16Avoids(s);
    Far16Avoids(Turn16(s));
    TurnsConcat(s, 16, 16);
    if Far32(s) {
      AvoidsOn(s, 16, 16);
    }
  }

  lemma Far64Avoids(s: bv16)
    ensures Turns(s, 64) == Turn64(s) && (Far64(s) ==> Avoids(s, 64))
  {
    hide Turn32, Far32, Turns, Avoids;
    Far32Avoids(s);
    Far32Avoids(Turn32(s));
    TurnsConcat(s, 32, 32);
    if Far64(s) {
      AvoidsOn(s, 32, 32);
    }
  }

  lemma NoTurns(s: bv16)
    ensures Turns(s, 0) == s && Avoids(s, 0)
  {}

  // 64 turns more
  lemma Stretch(n: nat, s: bv16, t: bv16)
    requires Avoids(2, n) && Turns(2, n) == s && Far64(s) && Turn64(s) == t
    ensures Avoids(2, n + 64) && Turns(2, n + 64) == t
  {
    hide Turns, Avoids, Far64, Turn64;
    Far64Avoids(s);
    AvoidsOn(2, n, 64);
    TurnsConcat(2, n, 64);
  }

  lemma Stretches1()
    ensures Avoids(2, 128) && Turns(2, 128) == 0x4DD9
  {
    hide Turns, Avoids;
    NoTurns(2);
    Stretch(0, 0x0002, 0x60E3);
    Stretch(64, 0x60E3, 0x4DD9);
  }

  lemma Stretches2()
    requires Avoids(2, 128) && Turns(2, 128) == 0x4DD9
    ensures Avoids(2, 256) && Turns(2, 256) == 0x0C73
  {
    hide Turns, Avoids;
    Stretch(128, 0x4DD9, 0xCA16);
    Stretch(192, 0xCA16, 0x0C73);
  }

  lemma Stretches3()
    requires Avoids(2, 256) && Turns(2, 256) == 0x0C73
    ensures Avoids(2, 384) && Turns(2, 384) == 0x8BE5
  {
    hide Turns, Avoids;
    Stretch(256, 0x0C73, 0x4D54);
    Stretch(320, 0x4D54, 0x8BE5);
  }

  lemma Stretches4()
    requires Avoids(2, 384) && Turns(2, 384) == 0x8BE5
    ensures Avoids(2, 512) && Turns(2, 512) == 0x27F8
  {
    hide Turns, Avoids;
    Stretch(384, 0x8BE5, 0x4A6A);
    Stretch(448, 0x4A6A, 0x27F8);
  }

  lemma Stretches5()
    requires Avoids(2, 512) && Turns(2, 512) == 0x27F8
    ensures Avoids(2, 640) && Turns(2, 640) == 0xA44B
  {
    hide Turns, Avoids;
    Stretch(512, 0x27F8, 0x0045);
    Stretch(576, 0x0045, 0xA44B);
  }

  lemma Stretches6()
    requires Avoids(2, 640) && Turns(2, 640) == 0xA44B
    ensures Avoids(2, 768) && Turns(2, 768) == 0x20DE
  {
    hide Turns, Avoids;
    Stretch(640, 0xA44B, 0x1F47);
    Stretch(704, 0x1F47, 0x20DE);
  }

  lemma Stretches7()
    requires Avoids(2, 768) && Turns(2, 768) == 0x20DE
    ensures Avoids(2, 896) && Turns(2, 896) == 0x87AB
  {
    hide Turns, Avoids;
    Stretch(768, 0x20DE, 0x088E);
    Stretch(832, 0x088E, 0x87AB);
  }

  lemma Stretches8()
    requires Avoids(2, 896) && Turns(2, 896) == 0x87AB
    ensures Avoids(2, 1024) && Turns(2, 1024) == 0x6D88
  {
    hide Turns, Avoids;
    Stretch(896, 0x87AB, 0xB4B9);
    Stretch(960, 0xB4B9, 0x6D88);
  }

  lemma Stretches9()
    requires Avoids(2, 1024) && Turns(2, 1024) == 0x6D88
    ensures Avoids(2, 1152) && Turns(2, 1152) == 0x8018
  {
    hide Turns, Avoids;
    Stretch(1024, 0x6D88, 0xE388);
    Stretch(1088, 0xE388, 0x8018);
  }

  lemma Stretches10()
    requires Avoids(2, 1152) && Turns(2, 1152) == 0x8018
    ensures Avoids(2, 1280) && Turns(2, 1280) == 0x61BE
  {
    hide Turns, Avoids;
    Stretch(1152, 0x8018, 0x5957);
    Stretch(1216, 0x5957, 0x61BE);
  }

  lemma Stretches11()
    requires Avoids(2, 1280) && Turns(2, 1280) == 0x61BE
    ensures Avoids(2, 1408) && Turns(2, 1408) == 0x14BA
  {
    hide Turns, Avoids;
    Stretch(1280, 0x61BE, 0x0A97);
    Stretch(1344, 0x0A97, 0x14BA);
  }

  lemma Stretches12()
    requires Avoids(2, 1408) && Turns(2, 1408) == 0x14BA
    ensures Avoids(2, 1536) && Turns(2, 1536) == 0x4EC8
  {
    hide Turns, Avoids;
    Stretch(1408, 0x14BA, 0x33E3);
    Stretch(1472, 0x33E3, 0x4EC8);
  }

  lemma Stretches13()
    requires Avoids(2, 1536) && Turns(2, 1536) == 0x4EC8
    ensures Avoids(2, 1664) && Turns(2, 1664) == 0x0448
  {
    hide Turns, Avoids;
    Stretch(1536, 0x4EC8, 0x8D79);
    Stretch(1600, 0x8D79, 0x0448);
  }

  lemma Stretches14()
    requires Avoids(2, 1664) && Turns(2, 1664) == 0x0448
    ensures Avoids(2, 1792) && Turns(2, 1792) == 0x8D9E
  {
    hide Turns, Avoids;
    Stretch(1664, 0x0448, 0x412C);
    Stretch(1728, 0x412C, 0x8D9E);
  }

  lemma Stretches15()
    requires Avoids(2, 1792) && Turns(2, 1792) == 0x8D9E
    ensures Avoids(2, 1920) && Turns(2, 1920) == 0xDAB4
  {
    hide Turns, Avoids;
    Stretch(1792, 0x8D9E, 0x05EF);
    Stretch(1856, 0x05EF, 0xDAB4);
  }

  lemma Stretches16()
    requires Avoids(2, 1920) && Turns(2, 1920) == 0xDAB4
    ensures Avoids(2, 2048) && Turns(2, 2048) == 0xEA81
  {
    hide Turns, Avoids;
    Stretch(1920, 0xDAB4, 0x942B);
    Stretch(1984, 0x942B, 0xEA81);
  }

  // In the terms of the code: no power of x from the first to the 2048th is 1 modulo the generator.
  lemma NotOne(k: nat)
    requires 1 <= k <= 2048
    ensures Turns(1, k) != 1
  {
    hide Turns;
    Stretches1();
    Stretches2();
    Stretches3();
    Stretches4();
    Stretches5();
    Stretches6();
    Stretches7();
    Stretches8();
    Stretches9();
    Stretches10();
    Stretches11();
    Stretches12();
    Stretches13();
    Stretches14();
    Stretches15();
    Stretches16();
    FirstTurn();
    TurnsConcat(1, 1, k - 1);
  }

  lemma FirstTurn()
    ensures Turns(1, 1) == 2
  {
    assert Turns(1, 0) == 1;
  }

  // ---- Two wrong bits ----

  // How many bits are set
  function Weight(x: Bits): nat {
    if x == [] then 0 else Weight(x[..|x| - 1]) + if x[|x| - 1] then 1 else 0
  }

  lemma {:induction false} WeightParity(x: Bits)
    ensures Parity(x) <==> Weight(x) % 2 == 1
  {
    if x != [] {
      WeightParity(x[..|x| - 1]);
    }
  }

  lemma {:induction false} WeightZero(x: Bits)
    ensures Weight(x) == 0 <==> x == Zeros(|x|)
  {
    if x != [] {
      var n := |x| - 1;
      WeightZero(x[..n]);
      assert Zeros(|x|)[..n] == Zeros(n);
      assert x == x[..n] + [x[n]];
    }
  }

  // The last bit set
  lemma {:induction false} LastSet(x: Bits) returns (i: nat)
    requires Weight(x) > 0
    ensures i < |x| && x == x[..i] + [true] + Zeros(|x| - 1 - i) && Weight(x[..i]) == Weight(x) - 1
  {
    var n := |x| - 1;
    if x[n] {
      i := n;
    } else {
      i := LastSet(x[..n]);
      assert x[..n][..i] == x[..i];
      assert Zeros(n - i) == Zeros(n - 1 - i) + [false];
      assert x == x[..n] + [false];
    }
  }

  lemma OneWord(i: nat)
    requires i < 16
    ensures Word(1)[i] == (i == 15)
  {}

  lemma OneShifted()
    ensures BitStep(Zeros(16), true) == Word(1)
  {
    hide Word;
    forall i | 0 <= i < 16 ensures BitStep(Zeros(16), true)[i] == Word(1)[i] {
      OneWord(i);
    }
  }

  lemma TakeOne(s: bv16)
    requires BitStep(Word(s), true) == Zeros(16)
    ensures Turn(s) == 1
  {
    hide Turn, Word, Tap;
    WordTurns(s);
    forall i | 0 <= i < 16 ensures Word(Turn(s))[i] == (i == 15) {
      assert !BitStep(Word(s), true)[i];
    }
    OnlyOne(Turn(s));
  }

  lemma OnlyOne(t: bv16)
    requires forall i :: 0 <= i < 16 ==> Word(t)[i] == (i == 15)
    ensures t == 1
  {
    var w := Word(t);
    assert !w[0] && !w[1] && !w[2] && !w[3] && !w[4] && !w[5] && !w[6] && !w[7] && !w[8] && !w[9] && !w[10] && !w[11];
    assert !w[12] && !w[13] && !w[14] && w[15];
  }

  // A difference of two bits that are at most 2048 apart leaves the register different.
  lemma TwoBitsSeen(i: nat, k: nat, n: nat)
    requires k < 2048
    ensures Run(Zeros(16), Zeros(i) + [true] + Zeros(k) + [true] + Zeros(n)) != Zeros(16)
  {
    hide BitStep, Word, Turn, Turns;
    RunOfZeros(i);
    OneShifted();
    RunOne(Zeros(16), Zeros(i), true);
    RunConcat(Zeros(16), Zeros(i) + [true], Zeros(k));
    RunIsTurns(1, k);
    RunOne(Zeros(16), Zeros(i) + [true] + Zeros(k), true);
    NotOne(k + 1);
    TurnsUnfold(1, k);
    RunConcat(Zeros(16), Zeros(i) + [true] + Zeros(k) + [true], Zeros(n));
    RunOfZeros(n);
    var r := Run(Zeros(16), Zeros(i) + [true] + Zeros(k) + [true]);
    assert r == BitStep(Word(Turns(1, k)), true);
    if r == Zeros(16) {
      TakeOne(Turns(1, k));
    }
    if Run(r, Zeros(n)) == Zeros(16) {
      RunInjective(r, Zeros(16), Zeros(n));
    }
  }

  lemma TurnsUnfold(s: bv16, k: nat)
    ensures Turns(s, k + 1) == Turn(Turns(s, k))
  {}

  lemma RunOne(r: Bits, a: Bits, b: bool)
    requires |r| == 16
    ensures Run(r, a + [b]) == BitStep(Run(r, a), b)
  {
    assert (a + [b])[..|a|] == a;
  }

  lemma TwoBits(x: Bits)
    requires Weight(x) == 2 && |x| <= 2048
    ensures Run(Zeros(16), x) != Zeros(16)
  {
    hide Weight, Run, Zeros;
    var j := LastSet(x);
    var i := LastSet(x[..j]);
    WeightZero(x[..j][..i]);
    TwoBitsSeen(i, j - 1 - i, |x| - 1 - j);
  }

  // ---- The distance ----

  // Two wrong bits, wherever they are, are detected in every payload of at most 255 bytes.
  lemma TwoErrorsDetected(a: seq<Byte>, b: seq<Byte>)
    requires |a| == |b| <= 255 && Weight(Xor(MessageBits(a), MessageBits(b))) == 2
    ensures Number(Crc(a)) != Number(Crc(b))
  {
    hide Run, MessageBits, Weight, Number;
    var x := Xor(MessageBits(a), MessageBits(b));
    TwoBits(x);
    RunLinear(Zeros(16), Zeros(16), MessageBits(a), MessageBits(b));
    assert Xor(Zeros(16), Zeros(16)) == Zeros(16);
    XorSame(Crc(a));
    NumberOfCoefficients(Crc(a));
    NumberOfCoefficients(Crc(b));
  }

  lemma XorSame(u: Bits)
    ensures Xor(u, u) == Zeros(|u|)
  {}

  // Different payloads of one length and one CRC differ in at least four bits.
  lemma HammingDistance(a: seq<Byte>, b: seq<Byte>)
    requires |a| == |b| <= 255 && a != b && Number(Crc(a)) == Number(Crc(b))
    ensures Weight(Xor(MessageBits(a), MessageBits(b))) >= 4
  {
    hide Crc, MessageBits, Weight, Number;
    var x := Xor(MessageBits(a), MessageBits(b));
    WeightParity(x);
    WeightZero(x);
    if Weight(x) == 0 {
      SameMessage(a, b);
    } else if Weight(x) == 2 {
      TwoErrorsDetected(a, b);
    } else if Weight(x) % 2 == 1 {
      OddErrorsDetected(a, b);
    }
  }

  lemma SameMessage(a: seq<Byte>, b: seq<Byte>)
    requires |a| == |b| && Xor(MessageBits(a), MessageBits(b)) == Zeros(8 * |a|)
    ensures a == b
  {
    hide Xor, Zeros;
    SameBits(MessageBits(a), MessageBits(b));
    MessageBitsInjective(a, b);
  }

  lemma SameBits(u: Bits, v: Bits)
    requires |u| == |v| && Xor(u, v) == Zeros(|u|)
    ensures u == v
  {
    forall i | 0 <= i < |u| ensures u[i] == v[i] {
      assert Xor(u, v)[i] == Zeros(|u|)[i];
    }
  }

  lemma {:induction false} WeightConcat(x: Bits, y: Bits)
    ensures Weight(x + y) == Weight(x) + Weight(y)
  {
    if y == [] {
      assert x + y == x;
    } else {
      var n := |y| - 1;
      WeightConcat(x, y[..n]);
      assert (x + y)[..|x| + n] == x + y[..n];
    }
  }

  function Blank(n: nat): (z: seq<Byte>)
    ensures |z| == n
  {
    seq(n, _ => 0)
  }

  lemma {:induction false} ZeroBytes(n: nat)
    ensures MessageBits(Blank(n)) == Zeros(8 * n)
  {
    if n > 0 {
      ZeroBytes(n - 1);
      assert Blank(n)[..n - 1] == Blank(n - 1);
      NumberOfZeros(8);
      NumberOfCoefficients(Zeros(8));
      assert Zeros(8 * n) == Zeros(8 * (n - 1)) + Zeros(8);
    }
  }

  // The generator in three bytes
  lemma Doubled(n: nat, w: nat)
    ensures Coefficients(2 * n, w + 1) == Coefficients(n, w) + [false]
    ensures Coefficients(2 * n + 1, w + 1) == Coefficients(n, w) + [true]
  {
    hide *;
    CoefficientsUnfold(2 * n, w);
    CoefficientsUnfold(2 * n + 1, w);
  }

  lemma CoefficientsUnfold(n: nat, w: nat)
    ensures Coefficients(n, w + 1) == Coefficients(n / 2, w) + [n % 2 == 1]
  {}

  lemma {:induction false} NoCoefficients(w: nat)
    ensures Coefficients(0, w) == Zeros(w)
  {
    if w > 0 {
      NoCoefficients(w - 1);
    }
  }

  lemma ThreeBytes()
    ensures Coefficients(0x01, 8) == Zeros(7) + [true]
    ensures Coefficients(0x10, 8) == Zeros(3) + [true] + [false] + [false] + [false] + [false]
    ensures Coefficients(0x21, 8) == Zeros(2) + [true] + [false] + [false] + [false] + [false] + [true]
  {
    hide Coefficients, Zeros;
    NoCoefficients(7);
    Doubled(0, 7);
    NoCoefficients(3);
    Doubled(0, 3);
    Doubled(1, 4);
    Doubled(2, 5);
    Doubled(4, 6);
    Doubled(8, 7);
    NoCoefficients(2);
    Doubled(0, 2);
    Doubled(1, 3);
    Doubled(2, 4);
    Doubled(4, 5);
    Doubled(8, 6);
    Doubled(16, 7);
  }

  lemma GeneratorBytes(z: seq<Byte>, n: nat)
    requires MessageBits(z) == Zeros(n)
    ensures MessageBits(z + [0x01, 0x10, 0x21]) == Zeros(n + 7) + Generator()
  {
    hide Coefficients, MessageBits;
    ThreeBytes();
    BytePushed(z, 0x01);
    BytePushed(z + [0x01], 0x10);
    BytePushed(z + [0x01] + [0x10], 0x21);
    assert z + [0x01, 0x10, 0x21] == z + [0x01] + [0x10] + [0x21];
    GeneratorPieces(n);
  }

  lemma BytePushed(z: seq<Byte>, b: Byte)
    ensures MessageBits(z + [b]) == MessageBits(z) + Coefficients(b, 8)
  {
    hide Coefficients;
    assert (z + [b])[..|z|] == z;
  }

  lemma GeneratorPieces(n: nat)
    ensures Zeros(n) + (Zeros(7) + [true]) + (Zeros(3) + [true] + [false] + [false] + [false] + [false])
      + (Zeros(2) + [true] + [false] + [false] + [false] + [false] + [true]) == Zeros(n + 7) + Generator()
  {}

  lemma GeneratorWeight(n: nat)
    ensures Weight(Zeros(n) + Generator()) == 4
  {
    hide Weight;
    var g := Generator();
    WeightZero(Zeros(n));
    WeightConcat(Zeros(n), g);
    WeightZero(Zeros(3));
    WeightZero(Zeros(6));
    WeightZero(Zeros(4));
    OneSet();
    WeightConcat([true], Zeros(3));
    WeightConcat([true] + Zeros(3), [true]);
    WeightConcat([true] + Zeros(3) + [true], Zeros(6));
    WeightConcat([true] + Zeros(3) + [true] + Zeros(6), [true]);
    WeightConcat([true] + Zeros(3) + [true] + Zeros(6) + [true], Zeros(4));
    WeightConcat([true] + Zeros(3) + [true] + Zeros(6) + [true] + Zeros(4), [true]);
    assert g == [true] + Zeros(3) + [true] + Zeros(6) + [true] + Zeros(4) + [true];
  }

  lemma OneSet()
    ensures Weight([true]) == 1
  {}

  lemma XorTwice(u: Bits, v: Bits)
    requires |u| == |v|
    ensures Xor(u, Xor(u, v)) == v
    ensures v == Zeros(|u|) ==> Xor(u, v) == u
  {
    var w := Xor(u, v);
    assert forall i :: 0 <= i < |u| ==> Xor(u, w)[i] == (u[i] != w[i]) == v[i];
    assert v == Zeros(|u|) ==> forall i :: 0 <= i < |u| ==> !v[i] && w[i] == u[i];
  }

  // That distance is reached from every payload of at least three bytes.
  lemma DistanceReached(a: seq<Byte>) returns (b: seq<Byte>)
    requires |a| >= 3
    ensures |b| == |a| && Number(Crc(b)) == Number(Crc(a))
    ensures Weight(Xor(MessageBits(a), MessageBits(b))) == 4
  {
    hide MessageBits, Run, Weight, Number, XorMessage;
    var n := |a| - 3;
    var p := Blank(n) + [0x01, 0x10, 0x21];
    ZeroBytes(n);
    GeneratorBytes(Blank(n), 8 * n);
    b := XorMessage(a, p);
    SameLength(a, p);
    CrcLinear(a, p);
    BitsOfXor(a, p);
    RunConcat(Zeros(16), Zeros(8 * n + 7), Generator());
    RunOfZeros(8 * n + 7);
    GeneratorCancels();
    XorTwice(Crc(a), Crc(p));
    XorTwice(MessageBits(a), MessageBits(p));
    GeneratorWeight(8 * n + 7);
  }

  lemma SameLength(a: seq<Byte>, p: seq<Byte>)
    requires |a| == |p|
    ensures |XorMessage(a, p)| == |a| && |MessageBits(a)| == |MessageBits(p)|
  {}
}
