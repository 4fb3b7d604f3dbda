/** src/fwd/src/base64.c, with section 4 of RFC 4648 as its meaning. */
module Base64 {
  import opened Common

  type Sextet = n: int | 0 <= n < 64

  const PAD := '='
  const NUL := '\0'

  // ---- The alphabet ----

  // code_to_char
  function CodeToChar(x: Sextet): (c: char)
    ensures CharToCode(c) == Some(x)
  {
    if x <= 25 then 'A' + x as char
    else if x <= 51 then 'a' + (x - 26) as char
    else if x <= 61 then '0' + (x - 52) as char
    else if x == 62 then '+' else '/'
  }

  // char_to_code; None stands for the exit of the whole program.
  function CharToCode(c: char): (x: Option<Sextet>) {
    if 'A' <= c <= 'Z' then Some(c as int - 'A' as int)
    else if 'a' <= c <= 'z' then Some(c as int - 'a' as int + 26)
    else if '0' <= c <= '9' then Some(c as int - '0' as int + 52)
    else if c == '+' then Some(62)
    else if c == '/' then Some(63)
    else None
  }

  lemma CodeIsUnique(c: char)
    requires CharToCode(c).Some?
    ensures CodeToChar(CharToCode(c).value) == c
  {}

  // Table 1 of RFC 4648: where its rows of characters start and end, and that they are in order
  lemma Alphabet(x: Sextet)
    ensures CodeToChar(0) == 'A' && CodeToChar(25) == 'Z' && CodeToChar(26) == 'a' && CodeToChar(51) == 'z'
    ensures CodeToChar(52) == '0' && CodeToChar(61) == '9' && CodeToChar(62) == '+' && CodeToChar(63) == '/'
    ensures x < 61 && x !in {25, 51} ==> CodeToChar(x + 1) as int == CodeToChar(x) as int + 1
  {}

  // ---- Bytes and groups of six bits ----

  // The sextets of three bytes, and the bytes of four sextets
  function X0(a: Byte): Sextet { a / 4 }
  function X1(a: Byte, b: Byte): Sextet { var high: int := a % 4; 16 * high + b / 16 }
  function X2(b: Byte, c: Byte): Sextet { var high: int := b % 16; 4 * high + c / 64 }
  function X3(c: Byte): Sextet { c % 64 }

  function B0(x: Sextet, y: Sextet): Byte { var high: int := x; 4 * high + y / 16 }
  function B1(y: Sextet, z: Sextet): Byte { var high: int := y % 16; 16 * high + z / 4 }
  function B2(z: Sextet, w: Sextet): Byte { var high: int := z % 4; 64 * high + w }

  lemma BytesOfSextets(a: Byte, b: Byte, c: Byte)
    ensures B0(X0(a), X1(a, b)) == a && B1(X1(a, b), X2(b, c)) == b && B2(X2(b, c), X3(c)) == c
  {}

  lemma SextetsOfBytes(x: Sextet, y: Sextet, z: Sextet, w: Sextet)
    ensures X0(B0(x, y)) == x && X1(B0(x, y), B1(y, z)) == y && X2(B1(y, z), B2(z, w)) == z && X3(B2(z, w)) == w
  {}

  // Six bits at a time; a last group is filled up with zeros.
  function Group(s: Bytes): (x: seq<Sextet>)
    ensures |x| == EncodedSize(|s|)
  {
    if |s| == 0 then []
    else if |s| == 1 then [X0(s[0]), X1(s[0], 0)]
    else if |s| == 2 then [X0(s[0]), X1(s[0], s[1]), X2(s[1], 0)]
    else Quad(s[0], s[1], s[2]) + Group(s[3..])
  }

  function Quad(a: Byte, b: Byte, c: Byte): (x: seq<Sextet>)
    ensures |x| == 4
  {
    [X0(a), X1(a, b), X2(b, c), X3(c)]
  }

  // Three bytes and their four sextets are one number, highest digit first.
  lemma QuadValue(a: Byte, b: Byte, c: Byte)
    ensures var x := Quad(a, b, c);
      var p: int, q: int, r: int, w: int := x[0], x[1], x[2], x[3];
      0x1_0000 * a + 0x100 * b + c == 0x4_0000 * p + 0x1000 * q + 0x40 * r + w
  {
    assert a == 4 * (a / 4) + a % 4 && b == 16 * (b / 16) + b % 16 && c == 64 * (c / 64) + c % 64;
  }

  // Eight bits at a time; what is left at the end is dropped.
  function Ungroup(x: seq<Sextet>): (s: Bytes)
    requires |x| % 4 != 1
    ensures |s| == DecodedSize(|x|)
  {
    if |x| == 0 then []
    else if |x| == 2 then [B0(x[0], x[1])]
    else if |x| == 3 then [B0(x[0], x[1]), B1(x[1], x[2])]
    else Triple(x[0], x[1], x[2], x[3]) + Ungroup(x[4..])
  }

  function Triple(x: Sextet, y: Sextet, z: Sextet, w: Sextet): (s: Bytes)
    ensures |s| == 3
  {
    [B0(x, y), B1(y, z), B2(z, w)]
  }

  function EncodedSize(n: nat): nat {
    4 * (n / 3) + if n % 3 == 0 then 0 else n % 3 + 1
  }

  function DecodedSize(n: nat): nat {
    3 * (n / 4) + if n % 4 == 0 || n % 4 == 1 then 0 else n % 4 - 1
  }

  lemma {:induction false} UngroupGrouped(s: Bytes)
    ensures Ungroup(Group(s)) == s
  {
    hide X0, X1, X2, X3, B0, B1, B2;
    if |s| == 1 {
      BytesOfSextets(s[0], 0, 0);
      assert s == [s[0]];
    } else if |s| == 2 {
      BytesOfSextets(s[0], s[1], 0);
      assert s == [s[0], s[1]];
    } else if |s| >= 3 {
      UngroupGrouped(s[3..]);
      UngroupStep(s[0], s[1], s[2], Group(s[3..]));
      assert s == [s[0], s[1], s[2]] + s[3..];
    }
  }

  lemma UngroupStep(a: Byte, b: Byte, c: Byte, rest: seq<Sextet>)
    requires |rest| % 4 != 1
    ensures Ungroup(Quad(a, b, c) + rest) == [a, b, c] + Ungroup(rest)
  {
    hide X0, X1, X2, X3, B0, B1, B2, Ungroup, Quad;
    BytesOfSextets(a, b, c);
    var x := Quad(a, b, c) + rest;
    FourLess(x);
    QuadPrefix(a, b, c, rest);
    UngroupUnfold(x);
  }

  lemma QuadPrefix(a: Byte, b: Byte, c: Byte, rest: seq<Sextet>)
    ensures var x := Quad(a, b, c) + rest;
      x[4..] == rest && x[0] == X0(a) && x[1] == X1(a, b) && x[2] == X2(b, c) && x[3] == X3(c)
  {}

  lemma UngroupUnfold(x: seq<Sextet>)
    requires |x| % 4 != 1 && |x| >= 4
    ensures Ungroup(x) == Triple(x[0], x[1], x[2], x[3]) + Ungroup(x[4..])
  {}

  // The bits at the end that no byte uses are zero.
  predicate UnusedZero(x: seq<Sextet>) {
    && (|x| % 4 == 2 ==> x[|x| - 1] % 16 == 0)
    && (|x| % 4 == 3 ==> x[|x| - 1] % 4 == 0)
  }

  lemma {:induction false} GroupUngrouped(x: seq<Sextet>)
    requires |x| % 4 != 1
    ensures Group(Ungroup(x)) == x <==> UnusedZero(x)
  {
    hide X0, X1, X2, X3, B0, B1, B2, Quad, Triple, Group, Ungroup;
    if |x| == 0 {
      assert Group(Ungroup(x)) == x by { NothingGrouped(x); }
    } else if |x| == 2 {
      LastTwo(x);
    } else if |x| == 3 {
      LastThree(x);
    } else {
      GroupUngrouped(x[4..]);
      GroupStep(x);
      assert x[4..] != [] ==> x[4..][|x| - 5] == x[|x| - 1];
    }
  }

  lemma NothingGrouped(x: seq<Sextet>)
    requires x == []
    ensures Group(Ungroup(x)) == x
  {}

  lemma GroupStep(x: seq<Sextet>)
    requires |x| % 4 != 1 && |x| >= 4
    ensures Group(Ungroup(x)) == x <==> Group(Ungroup(x[4..])) == x[4..]
  {
    hide Quad, Triple, Ungroup, Group;
    var q, rest := [x[0], x[1], x[2], x[3]], x[4..];
    FourLess(x);
    QuadOfTriple(x[0], x[1], x[2], x[3]);
    GroupOfTriple(x);
    SameStart(q, Group(Ungroup(rest)), rest);
  }

  lemma FourLess<T>(x: seq<T>)
    requires |x| >= 4
    ensures x == [x[0], x[1], x[2], x[3]] + x[4..] && |x[4..]| == |x| - 4 && |x[4..]| % 4 == |x| % 4
  {}

  lemma QuadOfTriple(x: Sextet, y: Sextet, z: Sextet, w: Sextet)
    ensures var s := Triple(x, y, z, w); Quad(s[0], s[1], s[2]) == [x, y, z, w]
  {
    hide X0, X1, X2, X3, B0, B1, B2;
    SextetsOfBytes(x, y, z, w);
  }

  lemma GroupOfTriple(x: seq<Sextet>)
    requires |x| % 4 != 1 && |x| >= 4
    ensures var s := Triple(x[0], x[1], x[2], x[3]);
      Group(Ungroup(x)) == Quad(s[0], s[1], s[2]) + Group(Ungroup(x[4..]))
  {}

  lemma SameStart<T>(q: seq<T>, a: seq<T>, b: seq<T>)
    ensures q + a == q + b <==> a == b
  {
    if q + a == q + b {
      assert (q + a)[|q|..] == a && (q + b)[|q|..] == b;
    }
  }

  lemma LastTwo(x: seq<Sextet>)
    requires |x| == 2
    ensures Group(Ungroup(x)) == x <==> x[1] % 16 == 0
  {
    hide X0, X1, B0;
    var a := B0(x[0], x[1]);
    OneByte(x[0], x[1]);
    assert Group(Ungroup(x)) == [X0(a), X1(a, 0)];
    assert x == [x[0], x[1]];
  }

  lemma OneByte(x: Sextet, y: Sextet)
    ensures X0(B0(x, y)) == x && (X1(B0(x, y), 0) == y <==> y % 16 == 0)
  {}

  lemma LastThree(x: seq<Sextet>)
    requires |x| == 3
    ensures Group(Ungroup(x)) == x <==> x[2] % 4 == 0
  {
    hide X0, X1, X2, B0, B1;
    var a, b := B0(x[0], x[1]), B1(x[1], x[2]);
    TwoBytes(x[0], x[1], x[2]);
    assert Group(Ungroup(x)) == [X0(a), X1(a, b), X2(b, 0)];
    assert x == [x[0], x[1], x[2]];
  }

  lemma TwoBytes(x: Sextet, y: Sextet, z: Sextet)
    ensures X0(B0(x, y)) == x && X1(B0(x, y), B1(y, z)) == y && (X2(B1(y, z), 0) == z <==> z % 4 == 0)
  {}

  // ---- Texts ----

  predicate InAlphabet(t: string) {
    forall i :: 0 <= i < |t| ==> CharToCode(t[i]).Some?
  }

  function Chars(x: seq<Sextet>): (t: string)
    ensures |t| == |x| && forall i :: 0 <= i < |x| ==> t[i] == CodeToChar(x[i])
  {
    seq(|x|, i requires 0 <= i < |x| => CodeToChar(x[i]))
  }

  function Codes(t: string): (x: seq<Sextet>)
    requires InAlphabet(t)
    ensures |x| == |t| && forall i :: 0 <= i < |t| ==> x[i] == CharToCode(t[i]).value
  {
    seq(|t|, i requires 0 <= i < |t| => CharToCode(t[i]).value)
  }

  lemma CodesOfChars(x: seq<Sextet>)
    ensures InAlphabet(Chars(x)) && Codes(Chars(x)) == x
  {}

  lemma CharsOfCodes(t: string)
    requires InAlphabet(t)
    ensures Chars(Codes(t)) == t
  {}

  function Encode(s: Bytes): string {
    Chars(Group(s))
  }

  // One character is left over, or one is not of the alphabet.
  datatype Decoded = Decoded(bytes: Bytes) | Odd | Foreign

  function Decode(t: string): Decoded {
    if |t| % 4 == 1 then Odd
    else if !InAlphabet(t) then Foreign
    else Decoded(Ungroup(Codes(t)))
  }

  // Decoding inverts encoding.
  lemma DecodeEncoded(s: Bytes)
    ensures Decode(Encode(s)) == Decoded(s)
  {
    hide Chars, Codes, Group, Ungroup, InAlphabet;
    CodesOfChars(Group(s));
    UngroupGrouped(s);
    TextSize(s);
  }

  lemma TextSize(s: Bytes)
    ensures |Encode(s)| == |Group(s)| == EncodedSize(|s|) && |Encode(s)| % 4 != 1
  {
    hide CodeToChar, Group, EncodedSize;
    GroupSize(s);
  }

  lemma GroupSize(s: Bytes)
    ensures |Group(s)| == EncodedSize(|s|) && EncodedSize(|s|) % 4 != 1
  {
    hide Group;
    SizeRemainder(|s| / 3, |s| % 3);
  }

  lemma SizeRemainder(q: nat, r: nat)
    requires r < 3
    ensures (4 * q + if r == 0 then 0 else r + 1) % 4 != 1
  {}

  // Encoding what was decoded gives the text back exactly if the unused bits are zero.
  lemma ReencodeDecoded(t: string)
    requires Decode(t).Decoded?
    ensures Encode(Decode(t).bytes) == t <==> UnusedZero(Codes(t))
  {
    hide Chars, Codes, Group, Ungroup, InAlphabet, UnusedZero;
    CodesSize(t);
    GroupUngrouped(Codes(t));
    CharsOfCodes(t);
    CodesOfChars(Group(Ungroup(Codes(t))));
  }

  lemma CodesSize(t: string)
    requires InAlphabet(t)
    ensures |Codes(t)| == |t|
  {}

  // ---- Padding ----

  // Filled up with padding to a multiple of four characters
  function Padded(t: string): string {
    if |t| % 4 == 2 then t + [PAD, PAD] else if |t| % 4 == 3 then t + [PAD] else t
  }

  // What b64_to_bin takes for the text without its padding
  function Stripped(t: string): string {
    if |t| % 4 == 0 && |t| >= 4 then
      if t[|t| - 2] == PAD then t[..|t| - 2]
      else if t[|t| - 1] == PAD then t[..|t| - 1]
      else t
    else t
  }

  lemma NoPad(t: string)
    requires InAlphabet(t)
    ensures PAD !in t
  {}

  lemma StripPadded(t: string)
    requires PAD !in t && |t| % 4 != 1
    ensures Stripped(Padded(t)) == t && Stripped(t) == t
  {}

  // From the test vectors of section 10 of RFC 4648
  lemma TestVectors()
    ensures Padded(Encode([102])) == "Zg==" && Padded(Encode([102, 111])) == "Zm8="
    ensures Padded(Encode([102, 111, 111])) == "Zm9v"
  {
    assert Group([102]) == [25, 32] && Group([102, 111]) == [25, 38, 60];
    assert [102, 111, 111][3..] == [] && Group([102, 111, 111]) == [25, 38, 61, 47] + Group([]);
    assert Encode([102]) == "Zg" && Encode([102, 111]) == "Zm8" && Encode([102, 111, 111]) == "Zm9v";
  }

  // The padded decoder inverts the padded encoder, and the unpadded one too.
  lemma PaddedRoundTrip(s: Bytes)
    ensures Decode(Stripped(Padded(Encode(s)))) == Decoded(s) && Decode(Stripped(Encode(s))) == Decoded(s)
    ensures |Padded(Encode(s))| == 4 * ((|s| + 2) / 3)
  {
    hide Chars, Group, Stripped, Ungroup, Codes, InAlphabet;
    DecodeEncoded(s);
    CodesOfChars(Group(s));
    NoPad(Encode(s));
    TextSize(s);
    StripPadded(Encode(s));
  }

  // Encoding again what the padded decoder accepted gives the text back exactly if it is
  // padded to a multiple of four, whatever has padding in the last place but one has it in the
  // last, and the unused bits are zero.
  lemma PaddedReencode(t: string)
    requires Decode(Stripped(t)).Decoded?
    ensures Padded(Encode(Decode(Stripped(t)).bytes)) == t <==>
      |t| % 4 == 0 && (|t| >= 4 && t[|t| - 2] == PAD ==> t[|t| - 1] == PAD) && UnusedZero(Codes(Stripped(t)))
  {
    hide Encode, UnusedZero, Codes, InAlphabet, Ungroup;
    var u := Stripped(t);
    var v := Encode(Decode(u).bytes);
    ReencodeDecoded(u);
    SameSize(u);
    if |t| % 4 == 0 && |t| >= 4 && t[|t| - 2] == PAD {
      assert t == u + [t[|t| - 2], t[|t| - 1]];
      SameEnd(v, u, [PAD, PAD], [t[|t| - 2], t[|t| - 1]]);
    } else if |t| % 4 == 0 && |t| >= 4 && t[|t| - 1] == PAD {
      assert t == u + [t[|t| - 1]];
      SameEnd(v, u, [PAD], [t[|t| - 1]]);
    }
  }

  lemma SameSize(t: string)
    requires Decode(t).Decoded?
    ensures |Encode(Decode(t).bytes)| == |t|
  {
    hide Chars, Codes, InAlphabet;
    CodesSize(t);
    TextSize(Decode(t).bytes);
    SizesInvert(|t|);
    UngroupSize(Codes(t));
  }

  lemma UngroupSize(x: seq<Sextet>)
    requires |x| % 4 != 1
    ensures |Ungroup(x)| == DecodedSize(|x|)
  {}

  lemma SizesInvert(n: nat)
    requires n % 4 != 1
    ensures EncodedSize(DecodedSize(n)) == n
  {}

  lemma SameEnd(v: string, u: string, x: string, y: string)
    requires |v| == |u| && |x| == |y|
    ensures v + x == u + y <==> v == u && x == y
  {
    if v + x == u + y {
      assert (v + x)[..|v|] == (u + y)[..|v|] && (v + x)[|v|..] == (u + y)[|v|..];
      assert (v + x)[..|v|] == v && (u + y)[..|v|] == u && (v + x)[|v|..] == x && (u + y)[|v|..] == y;
    }
  }

  // ---- The encoders in place ----

  // A buffer that held was has been filled from its start with done.
  ghost predicate Written<T>(now: seq<T>, was: seq<T>, done: seq<T>) {
    |done| <= |was| && now == done + was[|done|..]
  }

  // Nothing has changed from index n on.
  ghost predicate BeyondKept<T>(now: seq<T>, was: seq<T>, n: nat) {
    n <= |was| == |now| && now[n..] == was[n..]
  }

  lemma WrittenKeeps<T>(now: seq<T>, was: seq<T>, done: seq<T>, n: nat)
    requires Written(now, was, done) && |done| <= n <= |was|
    ensures BeyondKept(now, was, n)
  {}

  method Put<T>(out: array<T>, p: nat, s: seq<T>, ghost was: seq<T>, ghost done: seq<T>)
    requires Written(out[..], was, done) && p == |done| && p + |s| <= out.Length
    modifies out
    ensures Written(out[..], was, done + s)
  {
    forall k | 0 <= k < |s| {
      out[p + k] := s[k];
    }
    assert |out[..]| == |was|;
    forall k | 0 <= k < |was| ensures out[k] == (done + s + was[p + |s|..])[k] {
      if p <= k < p + |s| {
        assert out[p + (k - p)] == s[k - p];
      }
    }
  }

  lemma EncodeStep(s: Bytes)
    requires |s| >= 3
    ensures Encode(s) == Chars(Quad(s[0], s[1], s[2])) + Encode(s[3..])
  {}

  lemma EncodeLast(s: Bytes)
    requires |s| < 3
    ensures Encode(s) ==
      if |s| == 0 then []
      else if |s| == 1 then [CodeToChar(X0(s[0])), CodeToChar(X1(s[0], 0))]
      else [CodeToChar(X0(s[0])), CodeToChar(X1(s[0], s[1])), CodeToChar(X2(s[1], 0))]
  {}

  // A block of three bytes as one number, from which the shifts take the characters
  lemma Shifts(a: Byte, b: Byte, c: Byte)
    ensures var n := Packed(a, b, c);
      n / 0x4_0000 % 64 == X0(a) && n / 0x1000 % 64 == X1(a, b) && n / 64 % 64 == X2(b, c) && n % 64 == X3(c)
  {
    TopShift(a, 256 * (b as int) + c);
    HighShift(a, b, c);
    LowShift(a, b, c);
  }

  lemma TopShift(a: int, rest: int)
    requires 0 <= a < 256 && 0 <= rest < 0x1_0000
    ensures (0x1_0000 * a + rest) / 0x4_0000 % 64 == a / 4
  {}

  lemma HighShift(a: int, b: int, c: int)
    requires 0 <= a < 256 && 0 <= b < 256 && 0 <= c < 256
    ensures (0x1_0000 * a + 0x100 * b + c) / 0x1000 % 64 == 16 * (a % 4) + b / 16
  {
    var h, l := b / 16, b % 16;
    assert 0x1_0000 * a + 0x100 * b + c == 0x1000 * (16 * a + h) + (0x100 * l + c);
    assert (0x1_0000 * a + 0x100 * b + c) / 0x1000 == 16 * a + h;
    var p, q := a / 4, a % 4;
    assert 16 * a + h == 64 * p + (16 * q + h);
  }

  lemma LowShift(a: int, b: int, c: int)
    requires 0 <= a < 256 && 0 <= b < 256 && 0 <= c < 256
    ensures (0x1_0000 * a + 0x100 * b + c) / 64 % 64 == 4 * (b % 16) + c / 64
    ensures (0x1_0000 * a + 0x100 * b + c) % 64 == c % 64
  {
    var h, l := c / 64, c % 64;
    assert 0x1_0000 * a + 0x100 * b + c == 64 * (1024 * a + 4 * b + h) + l;
    assert (0x1_0000 * a + 0x100 * b + c) / 64 == 1024 * a + 4 * b + h;
    var p, q := b / 16, b % 16;
    assert 1024 * a + 4 * b + h == 64 * (16 * a + p) + (4 * q + h);
  }

  function Packed(a: Byte, b: Byte, c: Byte): nat {
    var x: int, y: int := a, b;
    0x1_0000 * x + 0x100 * y + c
  }

  // bin_to_b64_nopad
  method BinToB64Nopad(in_: Bytes, out: array<char>, maxLen: nat) returns (r: int)
    requires maxLen <= out.Length && (in_ == [] ==> out.Length > 0)
    modifies out
    ensures in_ == [] ==> r == 0
    ensures in_ != [] ==> r == if maxLen < EncodedSize(|in_|) + 1 then -1 else EncodedSize(|in_|)
    ensures r == -1 ==> out[..] == old(out[..])
    ensures r != -1 ==> r == |Encode(in_)| && Written(out[..], old(out[..]), Encode(in_) + [NUL])
  {
    hide Encode, Written, EncodedSize, CodeToChar, X0, X1, X2, X3, Chars;
    TextSize(in_);
    SizeOf(|in_|);
    ghost var was: string := out[..];
    WrittenNothing(out[..]);
    if |in_| == 0 {
      EncodeLast(in_);
      Put(out, 0, [NUL], was, []);
      return 0;
    }
    var fullBlocks, lastBytes := |in_| / 3, |in_| % 3;
    var lastChars := if lastBytes == 0 then 0 else if lastBytes == 1 then 2 else 3;
    var resultLen := 4 * fullBlocks + lastChars;
    if maxLen < resultLen + 1 {
      return -1;
    }
    ghost var done: string := [];
    assert in_[0..] == in_ && [] + Encode(in_) == Encode(in_);
    for i := 0 to fullBlocks
      invariant |done| == 4 * i && Written(out[..], was, done) && Encode(in_) == done + Encode(in_[3 * i..])
    {
      ghost var rest := in_[3 * i..];
      BlockAt(in_, i);
      EncodeStep(rest);
      var block := BlockChars(in_[3 * i], in_[3 * i + 1], in_[3 * i + 2]);
      Put(out, 4 * i, block, was, done);
      assert done + (block + Encode(rest[3..])) == done + block + Encode(rest[3..]);
      done := done + block;
    }
    var i := fullBlocks;
    EncodeLast(in_[3 * i..]);
    var last := LastChars(in_[3 * i..]);
    Put(out, 4 * i, last + [NUL], was, done);
    assert done + (last + [NUL]) == Encode(in_) + [NUL];
    r := resultLen;
  }

  lemma SizeOf(n: nat)
    ensures EncodedSize(n) == 4 * (n / 3) + if n % 3 == 0 then 0 else if n % 3 == 1 then 2 else 3
  {}

  lemma WrittenNothing<T>(s: seq<T>)
    ensures Written(s, s, [])
  {}

  lemma BlockAt(s: Bytes, i: nat)
    requires 3 * i + 3 <= |s|
    ensures var rest := s[3 * i..];
      rest[0] == s[3 * i] && rest[1] == s[3 * i + 1] && rest[2] == s[3 * i + 2] && rest[3..] == s[3 * (i + 1)..]
        && |rest| >= 3
  {}

  method BlockChars(a: Byte, b: Byte, c: Byte) returns (t: string)
    ensures t == Chars(Quad(a, b, c))
  {
    hide CodeToChar, X0, X1, X2, X3;
    Shifts(a, b, c);
    var n := Packed(a, b, c);
    t := [CodeToChar(n / 0x4_0000 % 64), CodeToChar(n / 0x1000 % 64), CodeToChar(n / 64 % 64), CodeToChar(n % 64)];
  }

  // The characters of the last, partial block
  method LastChars(s: Bytes) returns (t: string)
    requires |s| < 3
    ensures t == Encode(s)
  {
    hide CodeToChar, X0, X1, X2, X3, Encode;
    EncodeLast(s);
    t := [];
    if |s| == 1 {
      Shifts(s[0], 0, 0);
      var n := Packed(s[0], 0, 0);
      t := [CodeToChar(n / 0x4_0000 % 64), CodeToChar(n / 0x1000 % 64)];
    } else if |s| == 2 {
      Shifts(s[0], s[1], 0);
      var n := Packed(s[0], s[1], 0);
      t := [CodeToChar(n / 0x4_0000 % 64), CodeToChar(n / 0x1000 % 64), CodeToChar(n / 64 % 64)];
    }
  }

  // bin_to_b64. When there is room for the characters but not for the padding, the buffer
  // holds the unpadded text and the call fails.
  method BinToB64(in_: Bytes, out: array<char>, maxLen: nat) returns (r: int)
    requires maxLen <= out.Length && (in_ == [] ==> out.Length > 0)
    modifies out
    ensures in_ == [] ==> r == 0
    ensures in_ != [] ==> (r == -1 <==> maxLen < 4 * ((|in_| + 2) / 3) + 1)
    ensures r != -1 ==> r == |Padded(Encode(in_))| && Written(out[..], old(out[..]), Padded(Encode(in_)) + [NUL])
    ensures r == -1 ==>
      if maxLen < EncodedSize(|in_|) + 1 then out[..] == old(out[..])
      else Written(out[..], old(out[..]), Encode(in_) + [NUL])
  {
    hide Encode, Written, EncodedSize, Chars;
    PaddedSize(|in_|);
    TextSize(in_);
    ghost var was, t := out[..], Encode(in_);
    r := BinToB64Nopad(in_, out, maxLen);
    if r == -1 {
      return;
    }
    if r % 4 == 2 {
      if maxLen >= r + 2 + 1 {
        Rewrite(out, r, [PAD, PAD, NUL], was, t);
        assert t + [PAD, PAD, NUL] == t + [PAD, PAD] + [NUL];
        r := r + 2;
      } else {
        r := -1;
      }
    } else if r % 4 == 3 {
      if maxLen >= r + 1 + 1 {
        Rewrite(out, r, [PAD, NUL], was, t);
        assert t + [PAD, NUL] == t + [PAD] + [NUL];
        r := r + 1;
      } else {
        r := -1;
      }
    }
  }

  // Writes over the terminator
  method Rewrite(out: array<char>, p: nat, s: string, ghost was: string, ghost t: string)
    requires p == |t| && p + |s| <= out.Length && |s| > 0 && Written(out[..], was, t + [NUL])
    modifies out
    ensures Written(out[..], was, t + s)
  {
    forall k | 0 <= k < |s| {
      out[p + k] := s[k];
    }
    forall k | 0 <= k < |was| ensures out[k] == (t + s + was[p + |s|..])[k] {
      if p <= k < p + |s| {
        assert out[p + (k - p)] == s[k - p];
      }
    }
  }

  lemma PaddedSize(n: nat)
    ensures 4 * ((n + 2) / 3) == EncodedSize(n) + if n % 3 == 0 then 0 else 3 - n % 3
    ensures EncodedSize(n) % 4 == if n % 3 == 0 then 0 else n % 3 + 1
  {}

  // ---- The decoders in place ----

  // A decoder returns, or ends the whole program at a foreign character.
  datatype Outcome = Returned(rc: int) | Exited

  lemma {:induction false} UngroupConcat(x: seq<Sextet>, y: seq<Sextet>)
    requires |x| % 4 == 0 && |y| % 4 != 1
    ensures |x + y| % 4 != 1
    ensures Ungroup(x + y) == Ungroup(x) + Ungroup(y)
  {
    hide Ungroup, Triple;
    if x == [] {
      assert x + y == y;
      UngroupNothing();
    } else {
      FourLess(x);
      FourLess(x + y);
      UngroupConcat(x[4..], y);
      UngroupUnfold(x);
      UngroupUnfold(x + y);
      assert (x + y)[4..] == x[4..] + y;
    }
  }

  lemma UngroupNothing()
    ensures Ungroup([]) == []
  {}

  // What n characters of a text decode to
  function DecodedUpTo(t: string, n: nat): Bytes
    requires n <= |t| && n % 4 != 1 && InAlphabet(t[..n])
  {
    Ungroup(Codes(t[..n]))
  }

  lemma FourMore(t: string, n: nat, x: Sextet, y: Sextet, z: Sextet, w: Sextet)
    requires n % 4 == 0 && n + 4 <= |t| && InAlphabet(t[..n])
    requires CharToCode(t[n]) == Some(x) && CharToCode(t[n + 1]) == Some(y)
    requires CharToCode(t[n + 2]) == Some(z) && CharToCode(t[n + 3]) == Some(w)
    ensures InAlphabet(t[..n + 4]) && DecodedUpTo(t, n + 4) == DecodedUpTo(t, n) + Triple(x, y, z, w)
  {
    hide Ungroup, Triple, CharToCode;
    AlphabetMore(t, n, 4);
    var a, b := Codes(t[..n]), [x, y, z, w];
    assert Codes(t[..n + 4]) == a + b;
    UngroupConcat(a, b);
    UngroupUnfold(b);
    UngroupNothing();
    assert b[4..] == [];
  }

  lemma AlphabetMore(t: string, n: nat, k: nat)
    requires n + k <= |t| && InAlphabet(t[..n])
    requires forall i :: n <= i < n + k ==> CharToCode(t[i]).Some?
    ensures InAlphabet(t[..n + k])
  {}

  lemma LastMore(t: string, n: nat)
    requires n % 4 == 0 && n <= |t| && |t| - n in {0, 2, 3} && InAlphabet(t[..n])
    ensures |t| % 4 != 1 && |t[n..]| % 4 != 1
    ensures InAlphabet(t) <==> InAlphabet(t[n..])
    ensures InAlphabet(t) ==> Ungroup(Codes(t)) == DecodedUpTo(t, n) + Ungroup(Codes(t[n..]))
  {
    hide Ungroup, CharToCode;
    forall i | n <= i < |t| ensures t[i] == t[n..][i - n] {}
    forall i | 0 <= i < n ensures t[i] == t[..n][i] {}
    if InAlphabet(t[n..]) {
      assert Codes(t) == Codes(t[..n]) + Codes(t[n..]);
      UngroupConcat(Codes(t[..n]), Codes(t[n..]));
    }
  }

  lemma Foreign4(t: string, p: nat)
    requires p + 4 <= |t|
    requires CharToCode(t[p]).None? || CharToCode(t[p + 1]).None? || CharToCode(t[p + 2]).None?
      || CharToCode(t[p + 3]).None?
    ensures !InAlphabet(t)
  {}

  // What the C code shifts together and apart
  lemma Unshifts(x: Sextet, y: Sextet, z: Sextet, w: Sextet)
    ensures var n := Joined(x, y, z, w);
      n / 0x1_0000 % 256 == B0(x, y) && n / 0x100 % 256 == B1(y, z) && n % 256 == B2(z, w)
  {
    HighByte(x, y, 64 * (z as int) + w);
    MiddleByte(x, y, z, w);
    LowByte(x, y, z, w);
  }

  lemma HighByte(x: int, y: int, rest: int)
    requires 0 <= x < 64 && 0 <= y < 64 && 0 <= rest < 0x1000
    ensures (0x4_0000 * x + 0x1000 * y + rest) / 0x1_0000 % 256 == 4 * x + y / 16
  {}

  lemma MiddleByte(x: int, y: int, z: int, w: int)
    requires 0 <= x < 64 && 0 <= y < 64 && 0 <= z < 64 && 0 <= w < 64
    ensures (0x4_0000 * x + 0x1000 * y + 64 * z + w) / 0x100 % 256 == 16 * (y % 16) + z / 4
  {
    var h, l, p, q := y / 16, y % 16, z / 4, z % 4;
    assert y == 16 * h + l && z == 4 * p + q;
    TwoDigits(1024 * x + 16 * y + p, 64 * q + w);
    TwoDigits(4 * x + h, 16 * l + p);
  }

  lemma TwoDigits(a: int, b: int)
    requires 0 <= b < 0x100
    ensures (0x100 * a + b) / 0x100 == a && (0x100 * a + b) % 0x100 == b
  {}

  lemma LowByte(x: int, y: int, z: int, w: int)
    requires 0 <= x < 64 && 0 <= y < 64 && 0 <= z < 64 && 0 <= w < 64
    ensures (0x4_0000 * x + 0x1000 * y + 64 * z + w) % 256 == 64 * (z % 4) + w
  {}

  function Joined(x: Sextet, y: Sextet, z: Sextet, w: Sextet): nat {
    var a: int, b: int, c: int := x, y, z;
    0x4_0000 * a + 0x1000 * b + 64 * c + w
  }

  // b64_to_bin_nopad
  method B64ToBinNopad(in_: string, out: array<Byte>, maxLen: nat) returns (r: Outcome)
    requires maxLen <= out.Length
    modifies out
    ensures |in_| % 4 == 1 || maxLen < DecodedSize(|in_|) ==> r == Returned(-1) && out[..] == old(out[..])
    ensures |in_| % 4 != 1 && maxLen >= DecodedSize(|in_|) ==>
      if InAlphabet(in_)
      then r == Returned(DecodedSize(|in_|)) && Written(out[..], old(out[..]), Ungroup(Codes(in_)))
      else r == Exited && BeyondKept(out[..], old(out[..]), DecodedSize(|in_|))
  {
    hide Written, BeyondKept, DecodedSize, CharToCode, InAlphabet, Ungroup, Codes, DecodedUpTo, Triple;
    BinSize(|in_|);
    ghost var was: Bytes := out[..];
    var fullBlocks, lastChars := |in_| / 4, |in_| % 4;
    if lastChars == 1 {
      return Returned(-1);
    }
    var lastBytes := if lastChars == 0 then 0 else lastChars - 1;
    var resultLen := 3 * fullBlocks + lastBytes;
    if maxLen < resultLen {
      return Returned(-1);
    }
    WrittenNothing(was);
    NothingDecoded(in_);
    ghost var done: Bytes := [];
    for i := 0 to fullBlocks
      invariant |done| == 3 * i && Written(out[..], was, done)
      invariant InAlphabet(in_[..4 * i]) && done == DecodedUpTo(in_, 4 * i)
    {
      var c0, c1, c2, c3 := CharToCode(in_[4 * i]), CharToCode(in_[4 * i + 1]), CharToCode(in_[4 * i + 2]),
        CharToCode(in_[4 * i + 3]);
      if c0.None? || c1.None? || c2.None? || c3.None? {
        Foreign4(in_, 4 * i);
        WrittenKeeps(out[..], was, done, resultLen);
        return Exited;
      }
      FourMore(in_, 4 * i, c0.value, c1.value, c2.value, c3.value);
      var block := BlockBytes(c0.value, c1.value, c2.value, c3.value);
      Put(out, 3 * i, block, was, done);
      done := done + block;
    }
    var i := fullBlocks;
    LastMore(in_, 4 * i);
    var last := LastBytes(in_[4 * i..]);
    if last.None? {
      WrittenKeeps(out[..], was, done, resultLen);
      return Exited;
    }
    Put(out, 3 * i, last.value, was, done);
    r := Returned(resultLen);
  }

  lemma BinSize(n: nat)
    ensures DecodedSize(n) == 3 * (n / 4) + if n % 4 <= 1 then 0 else n % 4 - 1
  {}

  lemma NothingDecoded(t: string)
    ensures InAlphabet(t[..0]) && DecodedUpTo(t, 0) == []
  {}

  method BlockBytes(x: Sextet, y: Sextet, z: Sextet, w: Sextet) returns (s: Bytes)
    ensures s == Triple(x, y, z, w)
  {
    hide B0, B1, B2;
    Unshifts(x, y, z, w);
    var n := Joined(x, y, z, w);
    s := [n / 0x1_0000 % 256, n / 0x100 % 256, n % 256];
  }

  // The bytes of the last, partial block
  method LastBytes(t: string) returns (s: Option<Bytes>)
    requires |t| in {0, 2, 3}
    ensures s.Some? <==> InAlphabet(t)
    ensures s.Some? ==> s.value == Ungroup(Codes(t))
  {
    hide CharToCode, B0, B1;
    if |t| == 0 {
      return Some([]);
    }
    var c0, c1 := CharToCode(t[0]), CharToCode(t[1]);
    if c0.None? || c1.None? {
      return None;
    }
    if |t| == 2 {
      Unshifts(c0.value, c1.value, 0, 0);
      return Some([Joined(c0.value, c1.value, 0, 0) / 0x1_0000 % 256]);
    }
    var c2 := CharToCode(t[2]);
    if c2.None? {
      return None;
    }
    Unshifts(c0.value, c1.value, c2.value, 0);
    var n := Joined(c0.value, c1.value, c2.value, 0);
    s := Some([n / 0x1_0000 % 256, n / 0x100 % 256]);
  }

  // b64_to_bin
  method B64ToBin(in_: string, out: array<Byte>, maxLen: nat) returns (r: Outcome)
    requires maxLen <= out.Length
    modifies out
    ensures var t := Stripped(in_);
      && (|t| % 4 == 1 || maxLen < DecodedSize(|t|) ==> r == Returned(-1) && out[..] == old(out[..]))
      && (|t| % 4 != 1 && maxLen >= DecodedSize(|t|) ==>
        if InAlphabet(t)
        then r == Returned(DecodedSize(|t|)) && Written(out[..], old(out[..]), Ungroup(Codes(t)))
        else r == Exited && BeyondKept(out[..], old(out[..]), DecodedSize(|t|)))
  {
    hide Written, BeyondKept, DecodedSize, InAlphabet, Ungroup, Codes;
    var size := |in_|;
    if size % 4 == 0 && size >= 4 {
      if in_[size - 2] == PAD {
        size := size - 2;
      } else if in_[size - 1] == PAD {
        size := size - 1;
      }
    }
    assert in_[..size] == Stripped(in_);
    r := B64ToBinNopad(in_[..size], out, maxLen);
  }
}
