/**
 The table-driven forms of the checksum: sixteen-byte slicing for mycrc32, and the tables of
 matrix powers that let mycrc32_combine skip a run of bytes in at most thirty-two lookups.
 Every method is proved to compute the reference functions of Crc32.
 */
module CrcTables {
  import opened Arithmetic
  import opened LinearMaps
  import opened LinearRegister
  import opened Crc32
  import opened TableChecksum

  lemma StepsXor(a: bv32, b: bv32, n: nat)
    ensures Iterate(Step, Xor32(a, b), n) == Xor32(Iterate(Step, a, n), Iterate(Step, b, n))
  {
    StepLinear();
    IterateAdds(Xor32, Step, a, b, n);
  }

  // ----- 32-bit words as sums of powers of two -----

  predicate Odd(v: bv32) { v & 1 == 1 }

  function Half(v: bv32): bv32 { v >> 1 }

  function Twice(v: bv32): bv32 { v << 1 }

  const WORDS: Words<bv32> := Words(Xor32, 0, 1, Odd, Half, Twice, 32)

  lemma TwiceBits(a: bv32, b: bv32, x: bv32)
    requires x == a ^ b
    ensures x << 1 == (a << 1) ^ (b << 1)
  {
  }

  lemma TwiceNamed(a: bv32, b: bv32, x: bv32)
    requires x == a ^ b
    ensures Twice(x) == Xor32(Twice(a), Twice(b))
  {
    TwiceBits(a, b, x);
  }

  lemma TwiceLinear()
    ensures Linear(Xor32, Twice)
  {
    forall a, b ensures AddsAt(Xor32, Twice, a, b) {
      TwiceNamed(a, b, Xor32(a, b));
    }
  }

  lemma TwiceEight(v: bv32)
    ensures Twice(Twice(Twice(Twice(Twice(Twice(Twice(Twice(v)))))))) == v << 8
  {
  }

  lemma ShiftByte(v: bv32)
    ensures Iterate(Twice, v, 8) == v << 8
  {
    IterateEight(Twice, v);
    TwiceEight(v);
  }

  lemma ShiftAmounts(v: bv32)
    ensures (v << 8) << 8 == v << 16
    ensures (v << 16) << 8 == v << 24
    ensures (v << 24) << 8 == 0
  {
  }

  lemma ShiftTwoBytes(v: bv32, n: nat)
    requires n == 8
    ensures Iterate(Twice, v, n + n) == v << 16
  {
    ShiftByte(v);
    ShiftByte(v << 8);
    IterateAdd(Twice, v, n, n);
    ShiftAmounts(v);
  }

  lemma ShiftThreeBytes(v: bv32, n: nat)
    requires n == 8
    ensures Iterate(Twice, v, n + n + n) == v << 24
  {
    ShiftTwoBytes(v, n);
    ShiftByte(v << 16);
    IterateAdd(Twice, v, n + n, n);
    ShiftAmounts(v);
  }

  lemma ShiftFourBytes(v: bv32, n: nat)
    requires n == 32
    ensures Iterate(Twice, v, n) == 0
  {
    var k := n / 4;
    ShiftThreeBytes(v, k);
    ShiftByte(v << 24);
    IterateAdd(Twice, v, k + k + k, k);
    ShiftAmounts(v);
  }

  lemma SplitLowBit(v: bv32)
    ensures v == Xor32(if Odd(v) then 1 else 0, Twice(Half(v)))
  {
  }

  lemma WordsAreSums()
    ensures WORDS.Valid()
  {
    TwiceLinear();
    forall v ensures WORDS.SplitsAt(v) {
      SplitLowBit(v);
    }
    forall v ensures Iterate(Twice, v, WORDS.bits) == 0 {
      ShiftFourBytes(v, WORDS.bits);
    }
    Units();
  }

  // ----- Whole bytes -----

  lemma StepUndo(y: bv32, z: bv32)
    requires z == y << 1
    requires y & 0x8000_0000 == 0
    ensures Step(z) == y
  {
  }

  lemma UndoOne(x: bv32, y: bv32)
    requires y == x << 1 && x & 0x8000_0000 == 0
    ensures Twice(x) == y && Step(y) == x
  {
    StepUndo(x, y);
  }

  /** Doubling x k times shifts nothing out. */
  predicate TopClear(x: bv32, k: nat)
    decreases k
  {
    k == 0 || (x & 0x8000_0000 == 0 && TopClear(x << 1, k - 1))
  }

  lemma {:induction false} StepsUndone(x: bv32, k: nat)
    requires TopClear(x, k)
    ensures Undoes(Twice, Step, x, k)
    decreases k
  {
    if k > 0 {
      StepsUndone(x << 1, k - 1);
      UndoOne(x, x << 1);
    }
  }

  lemma ByteTopClear(x: bv32)
    requires x & 0xFF00_0000 == 0
    ensures TopClear(x, BYTE_BITS)
  {
    assert TopClear((((((((x << 1) << 1) << 1) << 1) << 1) << 1) << 1), 1);
    assert TopClear(((((x << 1) << 1) << 1) << 1) << 1, 3);
    assert TopClear(((x << 1) << 1) << 1, 5);
    assert TopClear(x << 1, 7);
  }

  lemma StepsUndoTwice(x: bv32, k: nat)
    requires TopClear(x, k)
    ensures Iterate(Step, Iterate(Twice, x, k), k) == x
  {
    StepsUndone(x, k);
    IterateUndo(Twice, Step, x, k);
  }

  /** Eight steps undo a shift by one byte, as long as nothing was shifted out. */
  lemma StepsUndoByte(x: bv32)
    requires x & 0xFF00_0000 == 0
    ensures Iterate(Step, x << 8, BYTE_BITS) == x
  {
    ByteTopClear(x);
    StepsUndoTwice(x, BYTE_BITS);
    ShiftByte(x);
  }

  lemma SplitByte(c: bv32)
    ensures c == Xor32(c & 0xFF, (c >> 8) << 8)
    ensures (c >> 8) & 0xFF00_0000 == 0
  {
  }

  /** One table lookup for the low byte and a shift for the rest is eight steps. */
  lemma ByteStep(c: bv32)
    ensures Iterate(Step, c, BYTE_BITS) == Xor32(Iterate(Step, c & 0xFF, BYTE_BITS), c >> 8)
  {
    SplitByte(c);
    StepsXor(c & 0xFF, (c >> 8) << 8, BYTE_BITS);
    StepsUndoByte(c >> 8);
  }

  lemma FeedIsByteStep(c: bv32, b: bv8)
    ensures FeedByte(c, b) == Iterate(Step, Xor32(c, b as bv32), BYTE_BITS)
  {
    FeedByteIsSteps(c, b);
  }

  lemma LowByteMask(c: bv32, b: bv8, x: bv32)
    requires x == c ^ (b as bv32)
    ensures x & 0xFF == (c & 0xFF) ^ (b as bv32)
    ensures x >> 8 == c >> 8
    ensures (c & 0xFF) ^ (b as bv32) <= 0xFF
  {
  }

  /** The byte loop of mycrc32: one lookup absorbs one byte. */
  lemma LookupFeedsByte(c: bv32, b: bv8)
    ensures FeedByte(c, b) == Xor32(Iterate(Step, (c & 0xFF) ^ (b as bv32), BYTE_BITS), c >> 8)
  {
    FeedIsByteStep(c, b);
    ByteStep(Xor32(c, b as bv32));
    LowByteMask(c, b, Xor32(c, b as bv32));
  }

  // ----- Whole words: the slicing step -----

  lemma StepsSkipByte(x: bv32, m: nat)
    requires x & 0xFF00_0000 == 0
    ensures Iterate(Step, x << 8, BYTE_BITS + m) == Iterate(Step, x, m)
  {
    IterateAdd(Step, x << 8, BYTE_BITS, m);
    StepsUndoByte(x);
  }

  function Low(w: bv32): bv32 { w & 0xFF }

  function Shr(w: bv32): bv32 { w >> 8 }

  function Push(b: bv8, w: bv32): bv32 { (b as bv32) ^ (w << 8) }

  predicate Small(w: bv32) { w & 0xFF00_0000 == 0 }

  lemma StepPeels(w: bv32, m: nat)
    ensures Peels(Xor32, Step, Low, Shr, BYTE_BITS, w, m)
  {
    PeelByte(w, m);
  }

  lemma PeelByte(w: bv32, m: nat)
    ensures Iterate(Step, w, BYTE_BITS + m)
         == Xor32(Iterate(Step, w & 0xFF, BYTE_BITS + m), Iterate(Step, w >> 8, m))
  {
    SplitByte(w);
    StepsXor(w & 0xFF, (w >> 8) << 8, BYTE_BITS + m);
    StepsSkipByte(w >> 8, m);
  }

  lemma StepFeedsFrom(c: bv32, b: bv8, w: bv32, m: nat)
    requires Small(w)
    ensures FeedsFrom(Xor32, Step, FeedByte, Push, BYTE_BITS, c, b, w, m)
  {
    XorAssociates(c, b as bv32, w << 8);
    IterateAdd(Step, Xor32(Xor32(c, b as bv32), w << 8), BYTE_BITS, m);
    StepsXor(Xor32(c, b as bv32), w << 8, BYTE_BITS);
    StepsUndoByte(w);
    FeedIsByteStep(c, b);
  }

  lemma PushStaysSmall(b1: bv8, b2: bv8, b3: bv8)
    ensures Small(0) && Small(Push(b3, 0)) && Small(Push(b2, Push(b3, 0)))
    ensures Small(Push(b1, Push(b2, Push(b3, 0))))
  {
  }

  /** The 32-bit word at four bytes, least significant byte first. */
  function Word(b: seq<bv8>): bv32 {
    if |b| == 4 then Push4(Push, 0, b) else 0
  }

  lemma WordIsFourBytes(c: bv32, b: seq<bv8>)
    requires |b| == 4
    ensures Absorb(FeedByte, c, b) == Iterate(Step, Xor32(c, Word(b)), BYTE_BITS * 4)
  {
    forall c, b, w, m: nat | Small(w) ensures FeedsFrom(Xor32, Step, FeedByte, Push, BYTE_BITS, c, b, w, m) {
      StepFeedsFrom(c, b, w, m);
    }
    Units();
    PushStaysSmall(b[1], b[2], b[3]);
    WordFeeds(Xor32, 0, Step, FeedByte, Push, BYTE_BITS, Small, c, b);
    AbsorbFour(FeedByte, c, b);
  }

  // ----- CRC-32 as an instance of the table-driven algorithms -----

  function Index(x: bv32): nat { x as int }

  function ByteAt(k: nat): bv32 { if k < 256 then k as bv32 else 0 }

  const BYTES: Bytes<bv32, bv8> := Bytes(REGISTER, Low, Shr, Index, ByteAt, Widen, Word)

  lemma ByteIndex(x: bv32)
    requires x <= 0xFF
    ensures BYTES.IsByte(x)
  {
  }

  lemma SmallBytes(c: bv32, b: bv8)
    ensures Low(c) <= 0xFF
    ensures Shr(Shr(Shr(c))) <= 0xFF
    ensures Xor32(Low(c), Widen(b)) <= 0xFF
  {
  }

  lemma AllBytes()
    ensures forall c :: BYTES.IsByte(Low(c)) && BYTES.IsByte(Shr(Shr(Shr(c))))
  {
    forall c ensures BYTES.IsByte(Low(c)) && BYTES.IsByte(Shr(Shr(Shr(c)))) {
      SmallBytes(c, 0);
      ByteIndex(Low(c));
      ByteIndex(Shr(Shr(Shr(c))));
    }
  }

  lemma AllStepBytes()
    ensures forall c :: BYTES.StepsByteAt(c)
  {
    forall c ensures BYTES.StepsByteAt(c) {
      ByteStep(c);
    }
  }

  lemma FeedsByte(c: bv32, b: bv8)
    ensures BYTES.FeedsByteAt(c, b)
  {
    SmallBytes(c, b);
    ByteIndex(Xor32(Low(c), Widen(b)));
    LookupFeedsByte(c, b);
  }

  lemma AllPeel()
    ensures forall w, m: nat :: Peels(Xor32, Step, Low, Shr, BYTE_BITS, w, m)
  {
    forall w, m: nat ensures Peels(Xor32, Step, Low, Shr, BYTE_BITS, w, m) {
      StepPeels(w, m);
    }
  }

  lemma AllLoad()
    ensures forall c, b :: BYTES.LoadsAt(c, b)
  {
    forall c, b ensures BYTES.LoadsAt(c, b) {
      if |b| == 4 {
        WordIsFourBytes(c, b);
      }
    }
  }

  lemma BytesAreValid()
    ensures BYTES.Valid()
  {
    RegisterIsLinear();
    AllBytes();
    AllStepBytes();
    forall c, b ensures BYTES.FeedsByteAt(c, b) {
      FeedsByte(c, b);
    }
    AllPeel();
    AllLoad();
  }

  lemma WordOfBytes(c: bv32)
    ensures c == Xor32(Xor32(Xor32(Shr(Shr(Shr(c))) << 24, Low(Shr(Shr(c))) << 16), Low(Shr(c)) << 8), Low(c))
  {
  }

  lemma PlaceIsShift(x: bv32, n: nat)
    requires n == 8
    ensures Iterate(Twice, x, n * 0) == x
    ensures Iterate(Twice, x, n * 1) == x << 8
    ensures Iterate(Twice, x, n * 2) == x << 16
    ensures Iterate(Twice, x, n * 3) == x << 24
  {
    ShiftByte(x);
    ShiftTwoBytes(x, n);
    ShiftThreeBytes(x, n);
  }

  lemma Places(c: bv32)
    ensures PlacesAt(BYTES, WORDS, c)
  {
    WordOfBytes(c);
    PlaceIsShift(Shr(Shr(Shr(c))), 8);
    PlaceIsShift(Low(Shr(Shr(c))), 8);
    PlaceIsShift(Low(Shr(c)), 8);
    PlaceIsShift(Low(c), 8);
  }

  lemma HalfEight(v: bv32)
    requires v <= 0xFF
    ensures Half(Half(Half(Half(Half(Half(Half(Half(v)))))))) == 0
  {
  }

  lemma ByteRunsOut(k: nat)
    requires k < 256
    ensures Iterate(Half, ByteAt(k), 8) == 0
  {
    IterateEight(Half, ByteAt(k));
    HalfEight(ByteAt(k));
  }

  lemma {:induction false} TopClearAt(x: bv32, k: nat, j: nat)
    requires TopClear(x, k) && j < k
    ensures Iterate(Twice, x, j) & 0x8000_0000 == 0
    decreases k
  {
    if j > 0 {
      TopClearAt(x << 1, k - 1, j - 1);
    }
  }

  lemma PowersTopClear()
    ensures TopClear(1, 31)
  {
    assert TopClear(0x0100_0000, 7);
    assert TopClear(0x0001_0000, 15);
    assert TopClear(0x0000_0100, 23);
  }

  lemma ColumnsStepDown(i: nat)
    requires 1 <= i < 32
    ensures Step(Iterate(Twice, 1, i)) == Iterate(Twice, 1, i - 1)
  {
    var y := Iterate(Twice, 1, i - 1);
    PowersTopClear();
    TopClearAt(1, 31, i - 1);
    IterateAdd(Twice, 1, i - 1, 1);
    IterateOnce(Twice, y);
    UndoOne(y, y << 1);
  }

  lemma WordsArePlaced()
    ensures Placed(BYTES, WORDS)
  {
    BytesAreValid();
    WordsAreSums();
    forall c ensures PlacesAt(BYTES, WORDS, c) {
      Places(c);
    }
    forall k | 0 <= k < 256 ensures Iterate(Half, ByteAt(k), 8) == 0 {
      ByteRunsOut(k);
    }
    forall i | 1 <= i < 32 ensures Step(Iterate(Twice, 1, i)) == Iterate(Twice, 1, i - 1) {
      ColumnsStepDown(i);
    }
  }

  /** The tables filled by mycrc32_init. */
  class Tables {
    const slices: array2<bv32>
    const powers: array3<bv32>

    ghost predicate Ready()
      reads slices, powers
    {
      SlicesHold(BYTES, slices) && PowersHold(BYTES, WORDS, powers, 32)
    }

    /** mycrc32_init. */
    constructor ()
      ensures Ready()
    {
      slices := new bv32[16, 256];
      powers := new bv32[32, 4, 256];
      new;
      WordsArePlaced();
      GenerateMainTables(BYTES, slices);
      GenerateCombineTables(BYTES, WORDS, powers);
    }

    /** mycrc32 on data that starts at address addr. */
    method Mycrc32(crc: bv32, addr: nat, data: seq<bv8>) returns (r: bv32)
      requires Ready()
      ensures r == Crc(crc, data)
    {
      BytesAreValid();
      r := Checksum(BYTES, slices, crc, addr, data);
    }

    /** mycrc32_combine. */
    method Mycrc32Combine(crc1: bv32, crc2: bv32, leng2: nat) returns (r: bv32)
      requires Ready()
      requires leng2 < Pow2(32)
      ensures r == Crc32.Combine(crc1, crc2, leng2)
    {
      WordsArePlaced();
      r := TableChecksum.Combine(BYTES, WORDS, powers, crc1, crc2, leng2);
    }
  }
}
