/** The clock arithmetic of SetClock: src/libmpsse/support.c and src/libmpsse/mpsse.c. */
module MpsseClock {
  import opened Common
  import opened MpsseStream

  const SIX_MHZ := 6_000_000
  const TWELVE_MHZ := 12_000_000
  const THIRTY_MHZ := 30_000_000
  const SIXTY_MHZ := 60_000_000

  // freq2div, in the C code's unsigned arithmetic: 32 bits, cut to 16
  function Freq2Div(systemClock: nat, freq: nat): (div: nat)
    requires freq > 0
    ensures div <= 0xFFFF
  {
    (systemClock / freq / 2 - 1) % 0x1_0000_0000 % 0x1_0000
  }

  function Quotient(n: nat, d: nat): nat
    requires d > 0
  {
    n / d
  }

  function Div2Freq(systemClock: nat, div: nat): nat {
    Quotient(systemClock, (1 + div) * 2)
  }

  // The choices of SetClock
  function SystemClock(freq: nat): nat {
    if freq > SIX_MHZ then SIXTY_MHZ else TWELVE_MHZ
  }

  function DivisorFor(freq: nat): (div: nat)
    ensures div <= 0xFFFF
  {
    if freq == 0 then 0xFFFF else Freq2Div(SystemClock(freq), freq)
  }

  // The clock SetClock reports
  function Achieved(freq: nat): nat {
    Div2Freq(SystemClock(freq), DivisorFor(freq))
  }

  // The clock is the slowest one the chip can produce from this system clock that is not
  // below the one asked for.
  ghost predicate Optimal(freq: nat) {
    && Achieved(freq) >= freq
    && forall div :: 0 <= div <= 0xFFFF && Div2Freq(SystemClock(freq), div) >= freq ==>
      Achieved(freq) <= Div2Freq(SystemClock(freq), div)
  }

  // ---- Division ----

  function Half(freq: nat): nat {
    if freq > SIX_MHZ then THIRTY_MHZ else SIX_MHZ
  }

  lemma Halved(half: nat, d: nat)
    requires d > 0
    ensures 2 * half / (d * 2) == half / d && 2 * half / d / 2 == half / d
  {
    var q, r := half / d, half % d;
    assert half == d * q + r;
    assert 2 * half == (d * 2) * q + 2 * r by {
      assert (d * 2) * q == 2 * (d * q);
    }
    QuotientUnique(2 * half, d * 2, q, 2 * r);
    var carry := if 2 * r >= d then 1 else 0;
    assert 2 * half == d * (2 * q + carry) + (2 * r - carry * d) by {
      assert d * (2 * q + carry) == 2 * (d * q) + d * carry;
    }
    QuotientUnique(2 * half, d, 2 * q + carry, 2 * r - carry * d);
  }

  lemma DivAtLeast(n: nat, d: nat, x: nat)
    requires d > 0
    ensures n / d >= x <==> x * d <= n
  {
    var q, r := n / d, n % d;
    assert n == d * q + r;
    if q >= x {
      assert (q - x) * d >= 0;
      assert x * d == d * q - (q - x) * d;
    } else {
      AtLeast(d, x - q);
      assert x * d == d * q + d * (x - q);
    }
  }

  lemma Rates(freq: nat, div: nat)
    ensures Div2Freq(SystemClock(freq), div) == Half(freq) / (div + 1)
    ensures freq > 0 ==> SystemClock(freq) / freq / 2 == Half(freq) / freq
  {
    Halved(Half(freq), div + 1);
    if freq > 0 {
      Halved(Half(freq), freq);
    }
  }

  // Where the divisor fits 16 bits, it is the quotient less one.
  lemma DivisorFits(freq: nat)
    requires 92 <= freq <= THIRTY_MHZ
    ensures 1 <= Half(freq) / freq <= 0x1_0000 && DivisorFor(freq) == Half(freq) / freq - 1
    ensures Achieved(freq) == Half(freq) / (Half(freq) / freq)
  {
    Rates(freq, DivisorFor(freq));
    DivAtLeast(Half(freq), freq, 1);
    DivAtLeast(Half(freq), freq, 0x1_0001);
  }

  // ---- The optimum ----

  lemma OptimalInRange(freq: nat)
    requires 92 <= freq <= THIRTY_MHZ
    ensures Optimal(freq)
  {
    var half := Half(freq);
    var q := half / freq;
    DivisorFits(freq);
    DivAtLeast(half, freq, q);
    assert freq * q == q * freq;
    DivAtLeast(half, q, freq);
    forall div | 0 <= div <= 0xFFFF && Div2Freq(SystemClock(freq), div) >= freq
      ensures Achieved(freq) <= Div2Freq(SystemClock(freq), div)
    {
      Rates(freq, div);
      Slower(half, freq, q, div + 1);
    }
  }

  lemma Commutes(a: int, b: int)
    ensures a * b == b * a
  {}

  lemma Slower(half: nat, freq: nat, q: nat, d: nat)
    requires freq > 0 && d > 0 && q > 0 && q == half / freq && half / d >= freq
    ensures half / q <= half / d
  {
    DivAtLeast(half, d, freq);
    Commutes(freq, d);
    DivAtLeast(half, freq, d);
    assert d <= q;
    Divides(half, q, d);
  }

  // A larger divisor gives a smaller quotient.
  lemma Divides(n: nat, q: nat, d: nat)
    requires 0 < d <= q
    ensures n / q <= n / d
  {
    var c := n / q;
    DivAtLeast(n, q, c);
    Grows(c, d, q);
    DivAtLeast(n, d, c);
  }

  lemma Grows(c: nat, d: nat, q: nat)
    requires d <= q
    ensures c * d <= c * q
  {
    assert c * q - c * d == c * (q - d);
  }

  // Asked for 1 to 91 Hz, where the divisor wraps around, the chip never gets the slowest
  // clock by chance.
  lemma NotSlowest(freq: nat)
    requires 1 <= freq <= 91
    ensures Achieved(freq) > 91
  {
    var q, w := SIX_MHZ / freq, DivisorFor(freq);
    Rates(freq, w);
    DivAtLeast(SIX_MHZ, freq, 65934);
    WrapAround(q, w);
    Wrapped(freq, q, (q - 1) / 0x1_0000 + 1, 0xFFFF - w);
    DivAtLeast(SIX_MHZ, w + 1, 92);
  }

  lemma WrapAround(q: nat, w: nat)
    requires 1 <= q <= SIX_MHZ && w == (q - 1) % 0x1_0000_0000 % 0x1_0000
    ensures q == 0x1_0000 * ((q - 1) / 0x1_0000 + 1) - (0xFFFF - w)
  {}

  // If the quotient is t below a multiple of 65536, t is more than 318.
  lemma Wrapped(freq: nat, q: nat, m: nat, t: nat)
    requires 1 <= freq <= 91 && q == SIX_MHZ / freq && q == 0x1_0000 * m - t
    ensures t > 318
  {
    DivAtLeast(SIX_MHZ, freq, q);
    DivAtLeast(SIX_MHZ, freq, q + 1);
    var p := freq * m;
    assert q * freq == 0x1_0000 * p - t * freq by {
      assert (0x1_0000 * m) * freq == 0x1_0000 * p;
    }
    assert (q + 1) * freq == q * freq + freq;
    Monotone(0, t, 0, freq);
    assert p >= 92;
    Monotone(t, t, freq, 91);
  }

  lemma Monotone(a: nat, b: nat, c: nat, d: nat)
    requires a <= b && c <= d
    ensures a * c <= b * d
  {}

  // SetClock finds the optimum exactly for 0 Hz and from 92 Hz to 30 MHz.
  lemma OptimalExact(freq: nat)
    ensures Optimal(freq) <==> freq == 0 || 92 <= freq <= THIRTY_MHZ
  {
    if freq == 0 {
      forall div | 0 <= div <= 0xFFFF ensures Achieved(0) <= Div2Freq(SystemClock(0), div) {
        Rates(0, div);
        Rates(0, 0xFFFF);
        DivAtLeast(SIX_MHZ, div + 1, 91);
      }
    } else if freq < 92 {
      NotSlowest(freq);
      Rates(freq, 0xFFFF);
      assert Div2Freq(SystemClock(freq), 0xFFFF) == 91;
    } else if freq <= THIRTY_MHZ {
      OptimalInRange(freq);
    } else {
      TooFast(freq);
    }
  }

  // Above 30 MHz the divisor wraps around to the slowest clock.
  lemma TooFast(freq: nat)
    requires freq > THIRTY_MHZ
    ensures Achieved(freq) == 457
  {
    hide DivisorFor, Div2Freq;
    DivisorOfZero(freq);
    Rates(freq, 0xFFFF);
  }

  lemma DivisorOfZero(freq: nat)
    requires freq > THIRTY_MHZ
    ensures DivisorFor(freq) == 0xFFFF
  {
    hide Div2Freq;
    Rates(freq, 0);
    DivAtLeast(THIRTY_MHZ, freq, 1);
  }

  // The clock is less than one step above the one asked for.
  lemma WithinOneStep(freq: nat)
    requires 92 <= freq <= THIRTY_MHZ
    ensures freq <= Achieved(freq)
    ensures Achieved(freq) * (DivisorFor(freq) + 1) < freq * (DivisorFor(freq) + 2)
  {
    OptimalInRange(freq);
    DivisorFits(freq);
    var half := Half(freq);
    var q := half / freq;
    DivAtLeast(half, q, half / q);
    DivAtLeast(half, freq, q + 1);
    assert freq * (q + 1) == (q + 1) * freq;
  }

  // ---- Setting the clock again ----

  predicate Stable(freq: nat) {
    SystemClock(Achieved(freq)) == SystemClock(freq) && Achieved(Achieved(freq)) == Achieved(freq)
  }

  lemma StableRate(freq: nat, d: nat)
    requires 1 <= d && Achieved(freq) == Half(freq) / d && 92 <= Achieved(freq) <= THIRTY_MHZ
    requires SystemClock(Achieved(freq)) == SystemClock(freq)
    ensures Achieved(Achieved(freq)) == Achieved(freq)
  {
    var half, c := Half(freq), Achieved(freq);
    DivisorFits(c);
    OptimalInRange(c);
    var q := half / c;
    DivAtLeast(half, d, c);
    assert c * d == d * c;
    DivAtLeast(half, c, d);
    DivAtLeast(half, q, c + 1);
    DivAtLeast(half, d, c + 1);
    Monotone(c + 1, c + 1, d, q);
  }

  // Setting the clock to the value reported keeps base clock and value, exactly for the
  // requests from 1 Hz to 30 MHz.
  lemma StableExact(freq: nat)
    ensures Stable(freq) <==> 1 <= freq <= THIRTY_MHZ
  {
    if freq == 0 {
      Rates(0, 0xFFFF);
      assert Achieved(0) == 91;
      NotSlowest(91);
    } else if freq > THIRTY_MHZ {
      TooFast(freq);
    } else {
      var d := DivisorFor(freq) + 1;
      Rates(freq, d - 1);
      if freq < 92 {
        NotSlowest(freq);
        UpTo(SIX_MHZ, d);
      } else {
        OptimalInRange(freq);
        UpTo(Half(freq), d);
      }
      StableRate(freq, d);
    }
  }

  lemma UpTo(n: nat, d: nat)
    requires d > 0
    ensures n / d <= n
  {
    DivAtLeast(n, d, n + 1);
    AtLeast(d, 1);
    assert (n + 1) * d >= n + 1 by {
      Monotone(n + 1, n + 1, 1, d);
    }
  }
}
