/**
 The CRC-32 kept for every block of a chunk: a bit-serial reference definition, and the laws of
 the checksum that the chunk server relies on when it assembles a block's checksum from pieces,
 skips zero runs, or checks a parity block.
 */
module Crc32 {
  import opened Arithmetic
  import opened LinearMaps
  import opened LinearRegister

  const CRC_POLY: bv32 := 0xEDB88320
  const ONES: bv32 := 0xFFFF_FFFF
  const BYTE_BITS: nat := 8

  // ----- Reference: one message bit at a time -----

  /** Feeds one message bit into the reflected shift register. */
  function FeedBit(c: bv32, bit: bv32): bv32 {
    if (c ^ bit) & 1 == 1 then CRC_POLY ^ (c >> 1) else c >> 1
  }

  /** Feeds the n low bits of b, least significant first. */
  function FeedBits(c: bv32, b: bv32, n: nat): bv32
    decreases n
  {
    if n == 0 then c else FeedBits(FeedBit(c, b & 1), b >> 1, n - 1)
  }

  function FeedByte(c: bv32, b: bv8): bv32 {
    FeedBits(c, b as bv32, BYTE_BITS)
  }

  /** One step without input, that is, multiplication by x. */
  function Step(c: bv32): bv32 {
    if c & 1 == 1 then CRC_POLY ^ (c >> 1) else c >> 1
  }

  function Xor32(a: bv32, b: bv32): bv32 { a ^ b }

  function Xor8(a: bv8, b: bv8): bv8 { a ^ b }

  function Widen(b: bv8): bv32 { b as bv32 }

  const REGISTER: Register<bv32, bv8> := Register(Xor32, 0, Xor8, 0, FeedByte, Step, BYTE_BITS, ONES)

  /** mycrc32(crc, data): the register is complemented on entry and on exit. */
  function Crc(crc: bv32, d: seq<bv8>): bv32 {
    REGISTER.Checksum(crc, d)
  }

  /** What mycrc32_combine computes: crc1 over leng2 zero bytes, xored with crc2. */
  function Combine(crc1: bv32, crc2: bv32, leng2: nat): bv32 {
    REGISTER.Combine(crc1, crc2, leng2)
  }

  /** mycrc32_zeroblock. */
  function ZeroBlock(crc: bv32, zeros: nat): bv32 {
    Combine(Xor32(crc, ONES), ONES, zeros)
  }

  /** n bit steps without input. */
  function Steps(c: bv32, n: nat): bv32 {
    Iterate(Step, c, n)
  }

  function XorBytes(d: seq<bv8>, e: seq<bv8>): (x: seq<bv8>)
    requires |d| == |e|
    ensures |x| == |d|
    ensures forall i :: 0 <= i < |d| ==> x[i] == d[i] ^ e[i]
  {
    AddAll(Xor8, d, e)
  }

  function ZeroBytes(n: nat): (z: seq<bv8>)
    ensures |z| == n
    ensures forall i :: 0 <= i < n ==> z[i] == 0
  {
    Repeat(0, n)
  }

  // ----- Bit facts -----

  lemma BitCases(a: bv32)
    ensures a & 1 == 0 || a & 1 == 1
  {
  }

  lemma XorBits(a: bv32, b: bv32)
    ensures (a ^ b) >> 1 == (a >> 1) ^ (b >> 1)
    ensures (a ^ b) & 1 == (a & 1) ^ (b & 1)
  {
  }

  lemma XorUnits(a: bv32)
    ensures a ^ a == 0
    ensures a ^ 0 == a
    ensures 0 ^ a == a
    ensures (a ^ ONES) ^ ONES == a
  {
  }

  lemma XorRegroup(p: bv32, a: bv32, b: bv32)
    ensures p ^ (a ^ b) == (p ^ a) ^ b
    ensures p ^ (a ^ b) == a ^ (p ^ b)
    ensures a ^ b == (p ^ a) ^ (p ^ b)
  {
  }

  lemma XorAssociates(a: bv32, b: bv32, x: bv32)
    ensures Xor32(Xor32(a, b), x) == Xor32(a, Xor32(b, x))
  {
  }

  lemma XorCommutes(a: bv32, b: bv32)
    ensures Xor32(a, b) == Xor32(b, a)
  {
  }

  lemma XorDrops(a: bv32, b: bv32)
    ensures Xor32(a, Xor32(a, b)) == b
    ensures Xor32(Xor32(a, b), b) == a
  {
  }

  lemma XorShuffles(a: bv32, b: bv32, x: bv32, y: bv32)
    ensures Xor32(Xor32(a, b), Xor32(x, y)) == Xor32(Xor32(a, x), Xor32(b, y))
  {
    XorAssociates(a, b, Xor32(x, y));
    XorAssociates(b, x, y);
    XorCommutes(b, x);
    XorAssociates(x, b, y);
    XorAssociates(a, x, Xor32(b, y));
  }

  lemma XorCancels(a: bv32, b: bv32, c: bv32, p: bv32)
    ensures Xor32(Xor32(Xor32(a, p), Xor32(Xor32(c, b), p)), Xor32(c, p)) == Xor32(Xor32(a, b), p)
  {
    var cb := Xor32(c, b);
    XorCommutes(cb, p);
    XorAssociates(a, p, Xor32(p, cb));
    XorDrops(p, cb);
    XorCommutes(c, b);
    XorAssociates(a, b, c);
    XorAssociates(Xor32(a, b), c, Xor32(c, p));
    XorDrops(c, p);
  }

  lemma ByteXorWidens(x: bv8, y: bv8)
    ensures (x ^ y) as bv32 == (x as bv32) ^ (y as bv32)
  {
  }

  lemma StepXor(a: bv32, b: bv32, x: bv32)
    requires x == a ^ b
    ensures Step(x) == Step(a) ^ Step(b)
  {
    XorBits(a, b);
    BitCases(a);
    BitCases(b);
    XorRegroup(CRC_POLY, a >> 1, b >> 1);
  }

  lemma FeedBitIsStep(c: bv32, b: bv32)
    ensures Step(c ^ b) == FeedBit(c, b & 1) ^ (b >> 1)
  {
    var fb := (c ^ b) & 1;
    assert (c ^ (b & 1)) & 1 == fb;
    XorBits(c, b);
    if fb == 1 {
      assert Step(c ^ b) == CRC_POLY ^ ((c >> 1) ^ (b >> 1));
      XorRegroup(CRC_POLY, c >> 1, b >> 1);
    }
  }

  /** True when b fits in its n low bits. */
  predicate Fits(b: bv32, n: nat)
    decreases n
  {
    if n == 0 then b == 0 else Fits(b >> 1, n - 1)
  }

  /** Feeding bits one by one is xoring them all in and then stepping. */
  lemma {:induction false} FeedBitsIsSteps(c: bv32, b: bv32, n: nat)
    requires Fits(b, n)
    ensures FeedBits(c, b, n) == Steps(c ^ b, n)
    decreases n
  {
    if n == 0 {
      XorUnits(c);
    } else {
      FeedBitIsStep(c, b);
      FeedBitsIsSteps(FeedBit(c, b & 1), b >> 1, n - 1);
    }
  }

  lemma ByteFits(b: bv8)
    ensures Fits(b as bv32, BYTE_BITS)
  {
    var w := b as bv32;
    assert (((((((w >> 1) >> 1) >> 1) >> 1) >> 1) >> 1) >> 1) >> 1 == 0;
    assert Fits(((((((w >> 1) >> 1) >> 1) >> 1) >> 1) >> 1) >> 1, 1);
    assert Fits(((((w >> 1) >> 1) >> 1) >> 1) >> 1, 3);
    assert Fits(((w >> 1) >> 1) >> 1, 5);
    assert Fits(w >> 1, 7);
  }

  lemma FeedByteIsSteps(c: bv32, b: bv8)
    ensures FeedByte(c, b) == Steps(c ^ (b as bv32), BYTE_BITS)
  {
    ByteFits(b);
    FeedBitsIsSteps(c, b as bv32, BYTE_BITS);
  }

  // ----- The CRC register is linear -----

  lemma Shuffles()
    ensures forall a, b, x, y :: REGISTER.ShufflesAt(a, b, x, y)
  {
    forall a, b, x, y ensures REGISTER.ShufflesAt(a, b, x, y) {
      XorShuffles(a, b, x, y);
    }
  }

  lemma Associates()
    ensures forall a, b, x :: REGISTER.AssociatesAt(a, b, x)
  {
    forall a, b, x ensures REGISTER.AssociatesAt(a, b, x) {
      XorAssociates(a, b, x);
    }
  }

  lemma Cancels()
    ensures forall a, b, c :: REGISTER.CancelsAt(a, b, c)
  {
    forall a, b, c ensures REGISTER.CancelsAt(a, b, c) {
      XorCancels(a, b, c, ONES);
    }
  }

  lemma Units()
    ensures forall a :: Xor32(a, 0) == a && Xor32(0, a) == a
    ensures forall a :: Xor32(Xor32(a, ONES), ONES) == a
    ensures forall y :: Xor8(0, y) == y
  {
    forall a ensures Xor32(a, 0) == a && Xor32(0, a) == a {
      XorUnits(a);
    }
    forall a ensures Xor32(Xor32(a, ONES), ONES) == a {
      XorUnits(a);
    }
    forall y ensures Xor8(0, y) == y {
      assert 0 ^ y == y;
    }
  }

  lemma XorLike()
    ensures REGISTER.XorLike()
  {
    Shuffles();
    Associates();
    Cancels();
    Units();
  }

  lemma StepXorNamed(a: bv32, b: bv32, x: bv32)
    requires x == a ^ b
    ensures Step(x) == Xor32(Step(a), Step(b))
  {
    StepXor(a, b, x);
  }

  lemma StepXor32(a: bv32, b: bv32)
    ensures Step(Xor32(a, b)) == Xor32(Step(a), Step(b))
  {
    StepXorNamed(a, b, Xor32(a, b));
  }

  lemma StepLinear()
    ensures Linear(Xor32, Step)
  {
    forall a, b ensures AddsAt(Xor32, Step, a, b) {
      StepXor32(a, b);
    }
  }

  lemma FeedForm()
    ensures forall a, s :: FeedByte(a, s) == Iterate(Step, Xor32(a, Widen(s)), BYTE_BITS)
  {
    forall a, s ensures FeedByte(a, s) == Iterate(Step, Xor32(a, Widen(s)), BYTE_BITS) {
      FeedByteIsSteps(a, s);
    }
  }

  lemma WidenAdds()
    ensures forall x, y :: Widen(Xor8(x, y)) == Xor32(Widen(x), Widen(y))
    ensures Widen(0) == 0
  {
    forall x, y ensures Widen(Xor8(x, y)) == Xor32(Widen(x), Widen(y)) {
      ByteXorWidens(x, y);
    }
  }

  lemma RegisterIsLinear()
    ensures REGISTER.Valid()
  {
    XorLike();
    StepLinear();
    FeedForm();
    WidenAdds();
    FeedIsLinear(REGISTER, Widen);
  }

  // ----- The laws the chunk server depends on -----

  lemma XorWithZeros(d: seq<bv8>)
    ensures XorBytes(ZeroBytes(|d|), d) == d
  {
    forall i | 0 <= i < |d| ensures XorBytes(ZeroBytes(|d|), d)[i] == d[i] {
      var x := d[i];
      assert 0 ^ x == x;
    }
  }

  /** Concatenation: the checksum of d + e from the two checksums and the length of e. */
  lemma CombineLaw(crc: bv32, d: seq<bv8>, e: seq<bv8>)
    ensures Combine(Crc(crc, d), Crc(0, e), |e|) == Crc(crc, d + e)
  {
    RegisterIsLinear();
    REGISTER.ConcatLaw(crc, d, e);
  }

  lemma ZeroBlockLaw(crc: bv32, n: nat)
    ensures ZeroBlock(crc, n) == Crc(crc, ZeroBytes(n))
  {
    RegisterIsLinear();
    REGISTER.NeutralLaw(crc, n);
  }

  /** The checksum is affine over xor: mycrc32_xorblocks. */
  lemma XorLaw(d: seq<bv8>, e: seq<bv8>)
    requires |d| == |e|
    ensures Crc(0, XorBytes(d, e)) == Xor32(Xor32(Crc(0, d), Crc(0, e)), ZeroBlock(0, |d|))
  {
    RegisterIsLinear();
    REGISTER.AffineLaw(d, e);
    ZeroBlockLaw(0, |d|);
  }

  // ----- The checksum of an empty block is not zero -----

  function StepPlusOne(c: bv32): bv32 {
    Xor32(Step(c), c)
  }

  /** The polynomial is not divisible by x + 1. */
  lemma NoStepFixed(c: bv32)
    requires StepPlusOne(c) == 0
    ensures c == 0
  {
  }

  lemma XorTelescopes(a: bv32, b: bv32, c: bv32)
    ensures Xor32(Xor32(a, b), Xor32(b, c)) == Xor32(a, c)
  {
    XorAssociates(a, b, Xor32(b, c));
    XorDrops(b, c);
  }

  lemma AllTelescope()
    ensures forall a, b, c :: Xor32(Xor32(a, b), Xor32(b, c)) == Xor32(a, c)
  {
    forall a, b, c ensures Xor32(Xor32(a, b), Xor32(b, c)) == Xor32(a, c) {
      XorTelescopes(a, b, c);
    }
  }

  lemma NoneFixed()
    ensures forall x :: StepPlusOne(x) == 0 ==> x == 0
  {
    forall x | StepPlusOne(x) == 0 ensures x == 0 {
      NoStepFixed(x);
    }
  }

  /** A run of 2^k bits of zeros has a checksum other than zero. */
  lemma PowerRunNotZero(k: nat)
    ensures Xor32(Iterate(Step, ONES, Doubled(1, k)), ONES) != 0
  {
    StepLinear();
    AllTelescope();
    NoneFixed();
    NoFixedPoint(Xor32, 0, Step, StepPlusOne, k, ONES);
  }

  lemma ZeroBlockBits(n: nat)
    ensures ZeroBlock(0, n) == Xor32(Iterate(Step, ONES, BYTE_BITS * n), ONES)
  {
    XorUnits(ONES);
  }

  /** The checksum of a block of 2^j zero bytes is not zero. */
  lemma EmptyNotZero(n: nat, j: nat)
    requires BYTE_BITS * n == Doubled(1, j)
    ensures ZeroBlock(0, n) != 0
  {
    ZeroBlockBits(n);
    PowerRunNotZero(j);
  }
}
