/**
 What CRC-32 is: the message, taken as a polynomial over the field with two elements with its first bit
 as the highest power, its first 32 bits complemented and 32 zeros behind it, is divided by the
 generator polynomial of the standard. The complement of the remainder, bit-reversed, is the checksum.
 */
module CrcPolynomial {
  import opened LinearMaps
  import opened LinearRegister
  import opened Polynomials
  import opened Crc32

  /** x^32 + x^26 + x^23 + x^22 + x^16 + x^12 + x^11 + x^10 + x^8 + x^7 + x^5 + x^4 + x^2 + x + 1. */
  const GENERATOR: Poly := {32, 26, 23, 22, 16, 12, 11, 10, 8, 7, 5, 4, 2, 1, 0}

  lemma GeneratorDegree()
    ensures HasDegree(GENERATOR, 32)
  {
  }

  // ----- Messages -----

  function Low(c: bv32): bool { c & 1 == 1 }

  function Half(c: bv32): bv32 { c >> 1 }

  /** The n low bits of a word, least significant first. */
  function LowBits(c: bv32, n: nat): seq<bool>
    decreases n
  {
    if n == 0 then [] else [Low(c)] + LowBits(Half(c), n - 1)
  }

  /** The bits of a message in the order in which they are sent: each byte from its lowest bit. */
  function Bits(d: seq<bv8>): seq<bool> {
    if |d| == 0 then [] else Bits(d[..|d| - 1]) + LowBits(d[|d| - 1] as bv32, 8)
  }

  /** The first bit is the highest power. */
  function Message(bits: seq<bool>): Poly {
    if |bits| == 0 then {} else Add(Up(Message(bits[..|bits| - 1])), Term(bits[|bits| - 1], {0}))
  }

  /** x^31 + ... + x + 1. */
  function AllBelow(n: nat): Poly {
    if n == 0 then {} else AllBelow(n - 1) + {n - 1}
  }

  /** The message with 32 zeros behind it and its first 32 bits complemented. */
  function Framed(bits: seq<bool>): Poly {
    Add(UpBy(Message(bits), 32), UpBy(AllBelow(32), |bits|))
  }

  lemma {:induction false} UpByAdds(a: Poly, b: Poly, k: nat)
    ensures UpBy(Add(a, b), k) == Add(UpBy(a, k), UpBy(b, k))
    decreases k
  {
    if k > 0 {
      UpByAdds(a, b, k - 1);
      UpAdds(UpBy(a, k - 1), UpBy(b, k - 1));
    }
  }

  lemma {:induction false} UpByUp(a: Poly, k: nat)
    ensures UpBy(Up(a), k) == Up(UpBy(a, k))
    decreases k
  {
    if k > 0 {
      UpByUp(a, k - 1);
    }
  }

  lemma {:induction false} UpByTerm(present: bool, k: nat)
    ensures UpBy(Term(present, {0}), k) == Term(present, {k})
    decreases k
  {
    if k > 0 {
      UpByTerm(present, k - 1);
    }
  }

  lemma Regroup(a: Poly, b: Poly, t: Poly)
    ensures Add(Add(a, t), b) == Add(Add(a, b), t)
  {
  }

  /** One more bit of a message. */
  lemma FramedPush(bits: seq<bool>, b: bool)
    ensures Framed(bits + [b]) == Add(Up(Framed(bits)), Term(b, {32}))
  {
    var m, n := Message(bits), |bits|;
    assert (bits + [b])[..n] == bits;
    UpByAdds(Up(m), Term(b, {0}), 32);
    UpByUp(m, 32);
    UpByTerm(b, 32);
    UpAdds(UpBy(m, 32), UpBy(AllBelow(32), n));
    Regroup(Up(UpBy(m, 32)), Up(UpBy(AllBelow(32), n)), Term(b, {32}));
  }

  // ----- The register -----

  /** What the register stands for: its lowest bit is the coefficient of x^31. */
  function Register(c: bv32): Poly {
    Coeffs(Low, Half, c, 32)
  }

  lemma HalfXor(a: bv32, b: bv32)
    ensures Half(Xor32(a, b)) == Xor32(Half(a), Half(b))
  {
  }

  lemma LowXor(a: bv32, b: bv32)
    ensures Low(Xor32(a, b)) == (Low(a) != Low(b))
  {
  }

  lemma BitsXor(a: bv32, b: bv32)
    ensures XorsAt(Low, Half, Xor32, a, b)
  {
    HalfXor(a, b);
    LowXor(a, b);
  }

  lemma RegisterXor(a: bv32, b: bv32)
    ensures Register(Xor32(a, b)) == Add(Register(a), Register(b))
  {
    forall x, y ensures XorsAt(Low, Half, Xor32, x, y) {
      BitsXor(x, y);
    }
    CoeffsXor(Low, Half, Xor32, a, b, 32);
  }

  function Nibble(c: bv32): bv32 { c >> 4 }

  lemma NibbleIsFour(c: bv32)
    ensures Nibble(c) == Half(Half(Half(Half(c))))
  {
  }

  lemma Nothing(c: bv32)
    ensures Nibble(Nibble(Nibble(Nibble(Nibble(Nibble(Nibble(Nibble(c)))))))) == 0
  {
  }

  lemma NibblesEnd(c: bv32)
    ensures Iterate(Nibble, c, 8) == 0
  {
    FourTimes(Nibble, c, 4);
    FourTimes(Nibble, Nibble(Nibble(Nibble(Nibble(c)))), 0);
    Nothing(c);
  }

  lemma Halved(c: bv32)
    ensures Iterate(Half, c, 32) == 0
  {
    forall x ensures Nibble(x) == Half(Half(Half(Half(x)))) {
      NibbleIsFour(x);
    }
    ByFours(Half, Nibble, c, 8);
    NibblesEnd(c);
  }

  /** The next power: the highest coefficient is left out of the register. */
  lemma RegisterUp(c: bv32)
    ensures Term(Low(c), {32}) + Register(Half(c)) == Up(Register(c))
  {
    CoeffsUp(Low, Half, c, 32);
    Halved(c);
    assert !Low(0);
  }

  lemma FourOf(c: bv32, n: nat)
    ensures Coeffs(Low, Half, c, n + 4)
         == Four(Low(c), Low(Half(c)), Low(Half(Half(c))), Low(Half(Half(Half(c)))), n) + Coeffs(Low, Half, Nibble(c), n)
  {
    NibbleIsFour(c);
    FourBits(Low, Half, n, c, Half(c), Half(Half(c)), Half(Half(Half(c))), Nibble(c));
  }

  lemma Digit0()
    ensures Coeffs(Low, Half, 0xEDB88320, 32) == {} + Coeffs(Low, Half, 0xEDB8832, 28)
  {
    FourOf(0xEDB88320, 28);
  }

  lemma Digit1()
    ensures Coeffs(Low, Half, 0xEDB8832, 28) == {26} + Coeffs(Low, Half, 0xEDB883, 24)
  {
    FourOf(0xEDB8832, 24);
  }

  lemma Digit2()
    ensures Coeffs(Low, Half, 0xEDB883, 24) == {23, 22} + Coeffs(Low, Half, 0xEDB88, 20)
  {
    FourOf(0xEDB883, 20);
  }

  lemma Digit3()
    ensures Coeffs(Low, Half, 0xEDB88, 20) == {16} + Coeffs(Low, Half, 0xEDB8, 16)
  {
    FourOf(0xEDB88, 16);
  }

  lemma Digit4()
    ensures Coeffs(Low, Half, 0xEDB8, 16) == {12} + Coeffs(Low, Half, 0xEDB, 12)
  {
    FourOf(0xEDB8, 12);
  }

  lemma Digit5()
    ensures Coeffs(Low, Half, 0xEDB, 12) == {11, 10, 8} + Coeffs(Low, Half, 0xED, 8)
  {
    FourOf(0xEDB, 8);
  }

  lemma Digit6()
    ensures Coeffs(Low, Half, 0xED, 8) == {7, 5, 4} + Coeffs(Low, Half, 0xE, 4)
  {
    FourOf(0xED, 4);
  }

  lemma Digit7()
    ensures Coeffs(Low, Half, 0xE, 4) == {2, 1, 0} + Coeffs(Low, Half, 0x0, 0)
  {
    FourOf(0xE, 0);
  }

  lemma UpperDigits()
    ensures Register(CRC_POLY) == {26, 23, 22, 16} + Coeffs(Low, Half, 0xEDB8, 16)
  {
    Digit0();
    Digit1();
    Digit2();
    Digit3();
  }

  lemma LowerDigits()
    ensures Coeffs(Low, Half, 0xEDB8, 16) == {12, 11, 10, 8, 7, 5, 4, 2, 1, 0}
  {
    Digit4();
    Digit5();
    Digit6();
    Digit7();
  }

  lemma AllTerms()
    ensures {26, 23, 22, 16} + {12, 11, 10, 8, 7, 5, 4, 2, 1, 0} + {32} == GENERATOR
  {
  }

  /** The constant in the register is the generator without its highest power. */
  lemma PolynomialOfRegister()
    ensures Register(CRC_POLY) + {32} == GENERATOR
  {
    UpperDigits();
    LowerDigits();
    AllTerms();
  }

  lemma FourMore(n: nat)
    ensures AllBelow(n + 4) == AllBelow(n) + {n, n + 1, n + 2, n + 3}
  {
    assert AllBelow(n + 4) == AllBelow(n + 3) + {n + 3} && AllBelow(n + 3) == AllBelow(n + 2) + {n + 2};
    assert AllBelow(n + 2) == AllBelow(n + 1) + {n + 1} && AllBelow(n + 1) == AllBelow(n) + {n};
  }

  lemma OnesDigit(c: bv32, n: nat)
    requires Low(c) && Low(Half(c)) && Low(Half(Half(c))) && Low(Half(Half(Half(c))))
    requires Coeffs(Low, Half, Nibble(c), n) == AllBelow(n)
    ensures Coeffs(Low, Half, c, n + 4) == AllBelow(n + 4)
  {
    FourOf(c, n);
    FourMore(n);
  }

  lemma OnesIsAll()
    ensures Register(ONES) == AllBelow(32)
  {
    OnesDigit(0xF, 0);
    OnesDigit(0xFF, 4);
    OnesDigit(0xFFF, 8);
    OnesDigit(0xFFFF, 12);
    OnesDigit(0xF_FFFF, 16);
    OnesDigit(0xFF_FFFF, 20);
    OnesDigit(0xFFF_FFFF, 24);
    OnesDigit(0xFFFF_FFFF, 28);
  }

  // ----- One bit -----

  function BitWord(bit: bool): bv32 {
    if bit then 1 else 0
  }

  lemma LowOfBit(bit: bool)
    ensures Low(BitWord(bit)) == bit
  {
  }

  lemma FedBit(c: bv32, bit: bool)
    ensures FeedBit(c, BitWord(bit)) == if Low(c) != bit then Xor32(CRC_POLY, Half(c)) else Half(c)
  {
    LowXor(c, BitWord(bit));
    LowOfBit(bit);
  }

  lemma StepSets(h: Poly, u: Poly, low: bool, bit: bool, p: Poly, g: Poly)
    requires Below(h, 32) && Below(p, 32) && u == Term(low, {32}) + h && g == p + {32}
    ensures Add(Term(low != bit, p), h) == Add(Add(u, Term(bit, {32})), Term(low != bit, g))
  {
  }

  /** Feeding a bit: the next power, plus the bit at x^32, reduced by the generator g if x^32 is left. */
  lemma FeedPolynomial(c: bv32, bit: bool, g: Poly)
    requires g == Register(CRC_POLY) + {32}
    ensures Register(FeedBit(c, BitWord(bit))) == Add(Add(Up(Register(c)), Term(bit, {32})), Term(Low(c) != bit, g))
  {
    var h, p := Register(Half(c)), Register(CRC_POLY);
    FedBit(c, bit);
    RegisterUp(c);
    RegisterXor(CRC_POLY, Half(c));
    StepSets(h, Up(Register(c)), Low(c), bit, p, g);
    AddNothing(h);
  }

  lemma AddNothing(h: Poly)
    ensures Add({}, h) == h
  {
  }

  lemma Reduced(f: Poly, r: Poly, t: Poly, g: Poly)
    ensures Add(Add(Up(f), t), Add(Add(Up(r), t), g)) == Add(Up(Add(f, r)), g)
  {
    UpAdds(f, r);
  }

  /** The register after all bits. */
  function FeedAll(c: bv32, bits: seq<bool>): bv32 {
    if |bits| == 0 then c else FeedBit(FeedAll(c, bits[..|bits| - 1]), BitWord(bits[|bits| - 1]))
  }

  lemma FirstFrame()
    ensures Framed([]) == Register(ONES)
  {
    OnesIsAll();
    UpByTerm(false, 32);
    assert Add({}, AllBelow(32)) == AllBelow(32);
  }

  /** One bit more. */
  lemma OneBitMore(front: seq<bool>, b: bool, c: bv32, p: seq<bool>, g: Poly)
    requires g == Register(CRC_POLY) + {32} && Add(Framed(front), Register(c)) == Product(p, g)
    ensures Add(Framed(front + [b]), Register(FeedBit(c, BitWord(b)))) == Product([Low(c) != b] + p, g)
  {
    FramedPush(front, b);
    FeedPolynomial(c, b, g);
    Reduced(Framed(front), Register(c), Term(b, {32}), Term(Low(c) != b, g));
    ProductPush(Low(c) != b, p, g);
  }

  lemma ProductPush(b: bool, p: seq<bool>, g: Poly)
    ensures Product([b] + p, g) == Add(Up(Product(p, g)), Term(b, g))
  {
    assert ([b] + p)[1..] == p;
  }

  /** After any message, message and register differ by a multiple of the generator. */
  lemma {:induction false} RegisterIsRemainder(bits: seq<bool>, g: Poly) returns (q: seq<bool>)
    requires g == Register(CRC_POLY) + {32}
    ensures Add(Framed(bits), Register(FeedAll(ONES, bits))) == Product(q, g)
  {
    if |bits| == 0 {
      q := [];
      FirstFrame();
    } else {
      var front, b := bits[..|bits| - 1], bits[|bits| - 1];
      var p := RegisterIsRemainder(front, g);
      var c := FeedAll(ONES, front);
      OneBitMore(front, b, c, p, g);
      assert front + [b] == bits;
      q := [Low(c) != b] + p;
    }
  }

  // ----- Bytes -----

  lemma {:induction false} FeedJoined(c: bv32, a: seq<bool>, b: seq<bool>)
    ensures FeedAll(c, a + b) == FeedAll(FeedAll(c, a), b)
  {
    if |b| == 0 {
      assert a + b == a;
    } else {
      FeedJoined(c, a, b[..|b| - 1]);
      assert (a + b)[..|a + b| - 1] == a + b[..|b| - 1];
    }
  }

  lemma LowWord(w: bv32)
    ensures BitWord(Low(w)) == w & 1
  {
    assert w & 1 == 1 || w & 1 == 0;
  }

  lemma {:induction false} FeedWord(c: bv32, w: bv32, n: nat)
    ensures FeedBits(c, w, n) == FeedAll(c, LowBits(w, n))
    decreases n
  {
    if n > 0 {
      LowWord(w);
      FeedWord(FeedBit(c, w & 1), Half(w), n - 1);
      FeedJoined(c, [Low(w)], LowBits(Half(w), n - 1));
      FeedOne(c, Low(w));
    }
  }

  lemma FeedOne(c: bv32, b: bool)
    ensures FeedAll(c, [b]) == FeedBit(c, BitWord(b))
  {
    assert [b][..0] == [];
  }

  lemma FeedOneByte(c: bv32, b: bv8)
    ensures FeedByte(c, b) == FeedAll(c, LowBits(b as bv32, 8))
  {
    FeedWord(c, b as bv32, 8);
  }

  lemma {:induction false} FeedMessage(c: bv32, d: seq<bv8>)
    ensures Absorb(FeedByte, c, d) == FeedAll(c, Bits(d))
  {
    if |d| > 0 {
      FeedMessage(c, d[..|d| - 1]);
      FeedOneByte(FeedAll(c, Bits(d[..|d| - 1])), d[|d| - 1]);
      FeedJoined(c, Bits(d[..|d| - 1]), LowBits(d[|d| - 1] as bv32, 8));
    }
  }

  lemma CrcComplement(d: seq<bv8>)
    ensures Xor32(Crc(0, d), ONES) == Absorb(FeedByte, ONES, d)
  {
    ComplementTwice(Absorb(FeedByte, ONES, d));
    assert Xor32(0, ONES) == ONES;
  }

  lemma ComplementTwice(c: bv32)
    ensures Xor32(Xor32(c, ONES), ONES) == c
  {
  }

  // ----- CRC-32 -----

  /** The register is determined by its polynomial. */
  lemma RegisterIsOne(a: bv32, b: bv32)
    requires Register(a) == Register(b)
    ensures a == b
  {
    RegisterXor(a, b);
    var c := Xor32(a, b);
    Halved(c);
    forall x ensures Half(x) == 0 && !Low(x) ==> x == 0 {
      NoBits(x);
    }
    NoCoeffs(Low, Half, 0, c, 32);
    SameWord(a, b);
  }

  lemma NoBits(x: bv32)
    ensures Half(x) == 0 && !Low(x) ==> x == 0
  {
  }

  lemma SameWord(a: bv32, b: bv32)
    requires Xor32(a, b) == 0
    ensures a == b
  {
  }

  lemma CrcHasRemainder(d: seq<bv8>)
    ensures IsRemainder(Framed(Bits(d)), GENERATOR, 32, Register(Xor32(Crc(0, d), ONES)))
  {
    GeneratorDegree();
    CrcComplement(d);
    FeedMessage(ONES, d);
    PolynomialOfRegister();
    var q := RegisterIsRemainder(Bits(d), GENERATOR);
  }

  /** A value is the checksum of a message exactly when its complement is the remainder. */
  lemma CrcIsRemainder(d: seq<bv8>, crc: bv32)
    ensures crc == Crc(0, d) <==> IsRemainder(Framed(Bits(d)), GENERATOR, 32, Register(Xor32(crc, ONES)))
  {
    CrcHasRemainder(d);
    if IsRemainder(Framed(Bits(d)), GENERATOR, 32, Register(Xor32(crc, ONES))) {
      OneRemainder(Framed(Bits(d)), GENERATOR, 32, Register(Xor32(crc, ONES)), Register(Xor32(Crc(0, d), ONES)));
      RegisterIsOne(Xor32(crc, ONES), Xor32(Crc(0, d), ONES));
      ComplementTwice(crc);
      ComplementTwice(Crc(0, d));
    }
  }

  // ----- The check value of the standard -----

  lemma Check1()
    ensures FeedByte(0xFFFFFFFF, 0x31) == 0x7C231048
  {
  }

  lemma Check2()
    ensures FeedByte(0x7C231048, 0x32) == 0xB0ACBB32
  {
  }

  lemma Check3()
    ensures FeedByte(0xB0ACBB32, 0x33) == 0x77B79C2D
  {
  }

  lemma Check4()
    ensures FeedByte(0x77B79C2D, 0x34) == 0x641C1F5C
  {
  }

  lemma Check5()
    ensures FeedByte(0x641C1F5C, 0x35) == 0x340AC5E3
  {
  }

  lemma Check6()
    ensures FeedByte(0x340AC5E3, 0x36) == 0xF68D2C9E
  {
  }

  lemma Check7()
    ensures FeedByte(0xF68D2C9E, 0x37) == 0xAFFC9660
  {
  }

  lemma Check8()
    ensures FeedByte(0xAFFC9660, 0x38) == 0x651F2550
  {
  }

  lemma Check9()
    ensures FeedByte(0x651F2550, 0x39) == 0x340BC6D9
  {
  }

  lemma AbsorbOne<T, S>(feed: (T, S) -> T, c: T, d: seq<S>, x: S)
    ensures Absorb(feed, c, d + [x]) == feed(Absorb(feed, c, d), x)
  {
    assert (d + [x])[..|d|] == d;
  }

  lemma AbsorbThree<T, S>(feed: (T, S) -> T, c: T, d: seq<S>, x: S, y: S, z: S)
    ensures Absorb(feed, c, d + [x, y, z]) == feed(feed(feed(Absorb(feed, c, d), x), y), z)
  {
    AbsorbOne(feed, c, d, x);
    AbsorbOne(feed, c, d + [x], y);
    AbsorbOne(feed, c, d + [x] + [y], z);
    assert d + [x, y, z] == d + [x] + [y] + [z];
  }

  lemma AbsorbNine<T, S>(feed: (T, S) -> T, c: T, d: seq<S>, e: seq<S>, f: seq<S>)
    requires |d| == |e| == |f| == 3
    ensures Absorb(feed, c, d + e + f)
         == feed(feed(feed(feed(feed(feed(feed(feed(feed(c, d[0]), d[1]), d[2]), e[0]), e[1]), e[2]), f[0]), f[1]), f[2])
  {
    assert Absorb(feed, c, []) == c;
    AbsorbThree(feed, c, [], d[0], d[1], d[2]);
    AbsorbThree(feed, c, d, e[0], e[1], e[2]);
    AbsorbThree(feed, c, d + e, f[0], f[1], f[2]);
    assert [] + [d[0], d[1], d[2]] == d && [e[0], e[1], e[2]] == e && [f[0], f[1], f[2]] == f;
  }

  lemma CheckRegister(d: seq<bv8>, e: seq<bv8>, f: seq<bv8>)
    requires d == [0x31, 0x32, 0x33] && e == [0x34, 0x35, 0x36] && f == [0x37, 0x38, 0x39]
    ensures Absorb(FeedByte, ONES, d + e + f) == 0x340BC6D9
  {
    AbsorbNine(FeedByte, ONES, d, e, f);
    Check1();
    Check2();
    Check3();
    Check4();
    Check5();
    Check6();
    Check7();
    Check8();
    Check9();
  }

  /** The checksum of "123456789". */
  lemma CheckValue()
    ensures Crc(0, [0x31, 0x32, 0x33] + [0x34, 0x35, 0x36] + [0x37, 0x38, 0x39]) == 0xCBF43926
  {
    CheckRegister([0x31, 0x32, 0x33], [0x34, 0x35, 0x36], [0x37, 0x38, 0x39]);
    CrcComplement([0x31, 0x32, 0x33] + [0x34, 0x35, 0x36] + [0x37, 0x38, 0x39]);
    ComplementTwice(Crc(0, [0x31, 0x32, 0x33] + [0x34, 0x35, 0x36] + [0x37, 0x38, 0x39]));
  }
}
