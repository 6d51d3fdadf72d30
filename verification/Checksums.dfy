/**
 What the chunk store needs of its block checksum, and the proof that CRC-32 provides it.
 The store is verified for every checksum that obeys these laws.
 */
module Checksums {
  import opened Arithmetic
  import opened LinearMaps
  import opened LinearRegister
  import opened Crc32

  datatype Sums = Sums(
    crc: seq<bv8> -> bv32,                 // mycrc32(0, data)
    combine: (bv32, bv32, nat) -> bv32,    // mycrc32_combine
    zeroRun: (bv32, nat) -> bv32,          // mycrc32_zeroblock
    xor: (bv32, bv32) -> bv32)
  {
    ghost predicate CombinesAt(d: seq<bv8>, e: seq<bv8>) {
      combine(crc(d), crc(e), |e|) == crc(d + e)
    }

    ghost predicate ExtendsAt(d: seq<bv8>, n: nat) {
      zeroRun(crc(d), n) == crc(d + ZeroBytes(n))
    }

    ghost predicate XorsAt(d: seq<bv8>, e: seq<bv8>) {
      |d| == |e| ==> crc(XorBytes(d, e)) == xor(xor(crc(d), crc(e)), zeroRun(0, |d|))
    }

    ghost predicate XorAssociatesAt(a: bv32, b: bv32, c: bv32) {
      xor(xor(a, b), c) == xor(a, xor(b, c))
    }

    ghost predicate XorCommutesAt(a: bv32, b: bv32) {
      xor(a, b) == xor(b, a)
    }

    ghost predicate Lawful() {
      && (forall d, e :: CombinesAt(d, e))
      && (forall d, n: nat :: ExtendsAt(d, n))
      && (forall d, e :: XorsAt(d, e))
      && (forall a, b, c :: XorAssociatesAt(a, b, c))
      && (forall a, b :: XorCommutesAt(a, b))
      && (forall a :: xor(a, a) == 0 && xor(0, a) == a)
      && crc([]) == 0
    }

    /** emptyblockcrc when n is the block size. */
    function Zeros(n: nat): bv32 {
      zeroRun(0, n)
    }

    lemma ZerosLaw(n: nat)
      requires Lawful()
      ensures Zeros(n) == crc(ZeroBytes(n))
    {
      assert ExtendsAt([], n);
      assert [] + ZeroBytes(n) == ZeroBytes(n);
    }
  }

  function Crc0(d: seq<bv8>): bv32 { Crc(0, d) }

  const CRC32: Sums := Sums(Crc0, Combine, ZeroBlock, Xor32)

  lemma CrcCombines(d: seq<bv8>, e: seq<bv8>)
    ensures CRC32.CombinesAt(d, e)
  {
    CombineLaw(0, d, e);
  }

  lemma CrcOfNothing()
    ensures Crc(0, []) == 0
  {
    XorUnits(0);
  }

  lemma RunAfter(d: seq<bv8>, n: nat)
    ensures ZeroBlock(Crc(0, d), n) == Crc(Crc(0, d), ZeroBytes(n))
  {
    ZeroBlockLaw(Crc(0, d), n);
  }

  lemma CrcContinues(d: seq<bv8>, e: seq<bv8>)
    ensures Crc(Crc(0, d), e) == Crc(0, d + e)
  {
    RegisterIsLinear();
    REGISTER.ContinueLaw(0, d, e);
  }

  lemma CrcExtends(d: seq<bv8>, n: nat)
    ensures CRC32.ExtendsAt(d, n)
  {
    RunAfter(d, n);
    CrcContinues(d, ZeroBytes(n));
  }

  lemma CrcXors(d: seq<bv8>, e: seq<bv8>)
    ensures CRC32.XorsAt(d, e)
  {
    if |d| == |e| {
      XorLaw(d, e);
    }
  }

  lemma XorUnit(a: bv32)
    ensures Xor32(a, a) == 0
    ensures Xor32(0, a) == a
  {
    XorUnits(a);
  }

  lemma Crc32IsLawful()
    ensures CRC32.Lawful()
  {
    forall d, e ensures CRC32.CombinesAt(d, e) {
      CrcCombines(d, e);
    }
    forall d, n: nat ensures CRC32.ExtendsAt(d, n) {
      CrcExtends(d, n);
    }
    forall d, e ensures CRC32.XorsAt(d, e) {
      CrcXors(d, e);
    }
    forall a, b, c ensures CRC32.XorAssociatesAt(a, b, c) {
      XorAssociates(a, b, c);
    }
    forall a, b ensures CRC32.XorCommutesAt(a, b) {
      XorCommutes(a, b);
    }
    forall a ensures Xor32(a, a) == 0 && Xor32(0, a) == a {
      XorUnit(a);
    }
    CrcOfNothing();
  }

  /** emptyblockcrc is not zero, so the two values allowed past the last block differ. */
  lemma EmptyBlockCrcNotZero()
    ensures CRC32.Zeros(0x10000) != 0
  {
    assert Doubled(1, 2) == 4 && Doubled(1, 4) == 16 && Doubled(1, 6) == 64 && Doubled(1, 8) == 256;
    assert Doubled(1, 10) == 1024 && Doubled(1, 12) == 4096 && Doubled(1, 14) == 16384;
    assert Doubled(1, 16) == 65536 && Doubled(1, 18) == 262144;
    EmptyNotZero(0x10000, 19);
  }
}
