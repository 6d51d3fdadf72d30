/**
 The layout of an erasure-coded chunk: which source block each block of each part holds, the
 parity part, and the algebra by which any one part follows from the others.
 */
module Erasure {
  import opened Arithmetic
  import opened Crc32
  import opened Checksums
  import opened ChunkData

  // ----- Layout: groups of four blocks are dealt out to the parts in turn -----

  /** The source block held in block q of data part p. */
  function SourceIndex(parts: nat, p: nat, q: nat): nat {
    (q / 4 * parts + p) * 4 + q % 4
  }

  /** The part that holds source block s, and its place there. */
  function PartOf(parts: nat, s: nat): nat
    requires parts > 0
  {
    s / 4 % parts
  }

  function PlaceOf(parts: nat, s: nat): nat
    requires parts > 0
  {
    s / 4 / parts * 4 + s % 4
  }

  lemma DivMod(a: nat, b: nat, n: nat)
    requires b < n
    ensures (a * n + b) / n == a && (a * n + b) % n == b
  {
    var x := a * n + b;
    var d := x / n - a;
    assert x == n * (x / n) + x % n;
    assert n * d == b - x % n;
    SmallMultiple(n, d);
  }

  /** The layout is a bijection between (part, place) and source blocks. */
  lemma LayoutInverse(parts: nat, p: nat, q: nat, s: nat)
    requires p < parts
    ensures PartOf(parts, SourceIndex(parts, p, q)) == p
    ensures PlaceOf(parts, SourceIndex(parts, p, q)) == q
    ensures PartOf(parts, s) < parts
    ensures SourceIndex(parts, PartOf(parts, s), PlaceOf(parts, s)) == s
  {
    var g := q / 4 * parts + p;
    assert SourceIndex(parts, p, q) / 4 == g;
    DivMod(q / 4, p, parts);
    var h := s / 4;
    assert h == parts * (h / parts) + h % parts;
    assert PlaceOf(parts, s) / 4 == h / parts;
  }

  /**
   The fields of a block number: four blocks in a row go to one part, the next four to the next part,
   and after all parts the next four places begin.
   */
  lemma LayoutFields(parts: nat, row: nat, p: nat, i: nat)
    requires p < parts && i < 4
    ensures PartOf(parts, 4 * parts * row + 4 * p + i) == p
    ensures PlaceOf(parts, 4 * parts * row + 4 * p + i) == 4 * row + i
  {
    var s := SourceIndex(parts, p, 4 * row + i);
    assert (4 * row + i) / 4 == row && (4 * row + i) % 4 == i;
    assert s == 4 * parts * row + 4 * p + i;
    LayoutInverse(parts, p, 4 * row + i, s);
  }

  // ----- Sums over parts -----

  /** All summands added up. */
  function Sum<T>(add: (T, T) -> T, nul: T, s: seq<T>): T {
    if |s| == 0 then nul else add(Sum(add, nul, s[..|s| - 1]), s[|s| - 1])
  }

  /** Any one summand can be taken out of a sum and added last. */
  lemma {:induction false} SumTakeOut<T(!new)>(add: (T, T) -> T, nul: T, s: seq<T>, j: nat)
    requires j < |s|
    requires forall a, b, c :: add(add(a, b), c) == add(add(a, c), b)
    ensures Sum(add, nul, s) == add(Sum(add, nul, s[..j] + s[j + 1..]), s[j])
  {
    var n := |s| - 1;
    var rest := s[..j] + s[j + 1..];
    if j == n {
      assert rest == s[..n];
    } else {
      SumTakeOut(add, nul, s[..n], j);
      assert s[..n][..j] + s[..n][j + 1..] == rest[..n - 1];
      assert rest[n - 1] == s[n];
    }
  }

  /** Byte i of every block. */
  function Column(bs: seq<seq<bv8>>, i: nat): (c: seq<bv8>)
    requires forall b :: b in bs ==> |b| == BLOCK
    requires i < BLOCK
    ensures |c| == |bs|
  {
    seq(|bs|, j requires 0 <= j < |bs| => assert bs[j] in bs; bs[j][i])
  }

  /** The xor of a list of blocks. */
  function XorFold(bs: seq<seq<bv8>>): (x: seq<bv8>)
    requires forall b :: b in bs ==> |b| == BLOCK
    ensures |x| == BLOCK
  {
    seq(BLOCK, i requires 0 <= i < BLOCK => Sum(Xor8, 0, Column(bs, i)))
  }

  lemma XorFoldEmpty()
    ensures XorFold([]) == ZeroBytes(BLOCK)
  {
    assert forall i :: 0 <= i < BLOCK ==> Column([], i) == [];
  }

  lemma XorFoldSnoc(bs: seq<seq<bv8>>, b: seq<bv8>)
    requires forall x :: x in bs ==> |x| == BLOCK
    requires |b| == BLOCK
    ensures forall x :: x in bs + [b] ==> |x| == BLOCK
    ensures XorFold(bs + [b]) == XorBytes(XorFold(bs), b)
  {
    forall i | 0 <= i < BLOCK ensures XorFold(bs + [b])[i] == XorFold(bs)[i] ^ b[i] {
      assert Column(bs + [b], i)[..|bs|] == Column(bs, i);
    }
  }

  lemma {:induction false} XorOfZeros(bs: seq<seq<bv8>>)
    requires forall i :: 0 <= i < |bs| ==> bs[i] == ZeroBytes(BLOCK)
    ensures forall b :: b in bs ==> |b| == BLOCK
    ensures XorFold(bs) == ZeroBytes(BLOCK)
  {
    if |bs| == 0 {
      XorFoldEmpty();
    } else {
      var rest, z := bs[..|bs| - 1], ZeroBytes(BLOCK);
      XorOfZeros(rest);
      assert bs == rest + [z];
      XorFoldSnoc(rest, z);
      XorWithZeros(z);
    }
  }

  lemma Xor8Swaps(a: bv8, b: bv8, c: bv8)
    ensures Xor8(Xor8(a, b), c) == Xor8(Xor8(a, c), b)
  {
  }

  lemma Xor8Solves(a: bv8, b: bv8)
    ensures Xor8(a, b) == 0 ==> a == b
  {
  }

  lemma AllSwap()
    ensures forall a, b, c :: Xor8(Xor8(a, b), c) == Xor8(Xor8(a, c), b)
  {
    forall a, b, c ensures Xor8(Xor8(a, b), c) == Xor8(Xor8(a, c), b) {
      Xor8Swaps(a, b, c);
    }
  }

  /** When all blocks cancel out, each is the xor of the others. */
  lemma OneFromTheOthers(bs: seq<seq<bv8>>, j: nat)
    requires forall b :: b in bs ==> |b| == BLOCK
    requires j < |bs|
    requires XorFold(bs) == ZeroBytes(BLOCK)
    ensures forall b :: b in bs[..j] + bs[j + 1..] ==> |b| == BLOCK
    ensures XorFold(bs[..j] + bs[j + 1..]) == bs[j]
  {
    var rest := bs[..j] + bs[j + 1..];
    AllSwap();
    assert bs[j] in bs;
    forall i | 0 <= i < BLOCK ensures XorFold(rest)[i] == bs[j][i] {
      var col := Column(bs, i);
      assert col[..j] + col[j + 1..] == Column(rest, i);
      SumTakeOut(Xor8, 0, col, j);
      assert XorFold(bs)[i] == 0;
      Xor8Solves(XorFold(rest)[i], bs[j][i]);
    }
  }

  lemma ParityCancels(bs: seq<seq<bv8>>)
    requires forall b :: b in bs ==> |b| == BLOCK
    ensures forall b :: b in bs + [XorFold(bs)] ==> |b| == BLOCK
    ensures XorFold(bs + [XorFold(bs)]) == ZeroBytes(BLOCK)
  {
    var x := XorFold(bs);
    XorFoldSnoc(bs, x);
    forall i | 0 <= i < BLOCK ensures XorBytes(x, x)[i] == 0 {
      var v := x[i];
      assert v ^ v == 0;
    }
  }

  // ----- Checksums of xored blocks -----

  function Crcs(k: Sums, bs: seq<seq<bv8>>): (c: seq<bv32>)
    ensures |c| == |bs|
    ensures forall i :: 0 <= i < |bs| ==> c[i] == k.crc(bs[i])
  {
    seq(|bs|, i requires 0 <= i < |bs| => k.crc(bs[i]))
  }

  /** What xoring the checksums and the empty-block checksum yields. */
  function ParityCrc(k: Sums, sums: seq<bv32>): bv32 {
    k.xor(Sum(k.xor, 0, sums), k.Zeros(BLOCK))
  }

  lemma XorTwice(k: Sums, s: bv32, c: bv32, e: bv32)
    requires k.Lawful()
    ensures k.xor(k.xor(k.xor(s, e), c), e) == k.xor(s, c)
  {
    assert k.XorAssociatesAt(s, e, c);
    assert k.XorCommutesAt(e, c);
    assert k.XorAssociatesAt(s, c, e);
    assert k.XorAssociatesAt(k.xor(s, c), e, e);
    assert k.XorCommutesAt(k.xor(s, c), 0);
  }

  lemma FoldCrcStep(k: Sums, bs: seq<seq<bv8>>, b: seq<bv8>)
    requires k.Lawful()
    requires forall x :: x in bs ==> |x| == BLOCK
    requires |b| == BLOCK
    ensures forall x :: x in bs + [b] ==> |x| == BLOCK
    ensures k.crc(XorFold(bs + [b])) == k.xor(k.xor(k.crc(XorFold(bs)), k.crc(b)), k.Zeros(BLOCK))
  {
    XorFoldSnoc(bs, b);
    assert k.XorsAt(XorFold(bs), b);
  }

  lemma SumCrcStep(k: Sums, bs: seq<seq<bv8>>, b: seq<bv8>)
    ensures Sum(k.xor, 0, Crcs(k, bs + [b])) == k.xor(Sum(k.xor, 0, Crcs(k, bs)), k.crc(b))
  {
    assert Crcs(k, bs + [b])[..|bs|] == Crcs(k, bs);
  }

  /** For an even number of blocks the empty-block checksum is left over, for an odd number it is not. */
  ghost predicate FoldCrcHolds(k: Sums, bs: seq<seq<bv8>>) {
    (forall b :: b in bs ==> |b| == BLOCK) ==>
      k.crc(XorFold(bs)) == if |bs| % 2 == 0 then ParityCrc(k, Crcs(k, bs)) else Sum(k.xor, 0, Crcs(k, bs))
  }

  lemma FoldCrcNone(k: Sums)
    requires k.Lawful()
    ensures FoldCrcHolds(k, [])
  {
    XorFoldEmpty();
    k.ZerosLaw(BLOCK);
  }

  lemma FoldCrcSnoc(k: Sums, bs: seq<seq<bv8>>, b: seq<bv8>)
    requires k.Lawful()
    requires forall x :: x in bs ==> |x| == BLOCK
    requires |b| == BLOCK
    requires FoldCrcHolds(k, bs)
    ensures FoldCrcHolds(k, bs + [b])
  {
    FoldCrcStep(k, bs, b);
    SumCrcStep(k, bs, b);
    ParityNext(k, k.crc(XorFold(bs)), Sum(k.xor, 0, Crcs(k, bs)), k.crc(b), |bs| % 2 == 0);
  }

  lemma {:induction false} FoldCrc(k: Sums, bs: seq<seq<bv8>>)
    requires k.Lawful()
    requires forall b :: b in bs ==> |b| == BLOCK
    ensures FoldCrcHolds(k, bs)
  {
    if |bs| == 0 {
      FoldCrcNone(k);
    } else {
      var rest, b := bs[..|bs| - 1], bs[|bs| - 1];
      assert bs == rest + [b] && b in bs;
      FoldCrc(k, rest);
      FoldCrcSnoc(k, rest, b);
    }
  }

  /** x is s, with e left over when even; one more operand c flips that. */
  lemma ParityNext(k: Sums, x: bv32, s: bv32, c: bv32, even: bool)
    requires k.Lawful()
    requires x == if even then k.xor(s, k.Zeros(BLOCK)) else s
    ensures k.xor(k.xor(x, c), k.Zeros(BLOCK)) == if even then k.xor(s, c) else k.xor(k.xor(s, c), k.Zeros(BLOCK))
  {
    XorTwice(k, s, c, k.Zeros(BLOCK));
  }

  /** With an odd number of blocks the xored checksums miss the block's checksum, unless E is zero. */
  lemma OddFoldCrc(k: Sums, bs: seq<seq<bv8>>)
    requires k.Lawful()
    requires forall b :: b in bs ==> |b| == BLOCK
    requires |bs| % 2 == 1
    ensures k.crc(XorFold(bs)) == ParityCrc(k, Crcs(k, bs)) <==> k.Zeros(BLOCK) == 0
  {
    FoldCrc(k, bs);
    var s, e := Sum(k.xor, 0, Crcs(k, bs)), k.Zeros(BLOCK);
    assert k.XorAssociatesAt(s, s, e);
    assert k.XorCommutesAt(s, 0);
  }

  // ----- What each part holds -----

  /** The source blocks that share place q, one from each data part. */
  function Row(src: seq<bv8>, parts: nat, q: nat): (r: seq<seq<bv8>>)
    ensures |r| == parts
    ensures forall b :: b in r ==> |b| == BLOCK
    ensures forall p :: 0 <= p < parts ==> r[p] == Block(src, SourceIndex(parts, p, q))
  {
    seq(parts, p requires 0 <= p < parts => Block(src, SourceIndex(parts, p, q)))
  }

  /** Block q of part p of the coded chunk; part number `parts` is the parity. */
  function PieceBlock(src: seq<bv8>, parts: nat, p: nat, q: nat): (b: seq<bv8>)
    ensures |b| == BLOCK
  {
    if p < parts then Block(src, SourceIndex(parts, p, q)) else XorFold(Row(src, parts, q))
  }

  /** Zero-extended, data is part p of the coded chunk. */
  ghost predicate HoldsPiece(data: seq<bv8>, src: seq<bv8>, parts: nat, p: nat) {
    forall q: nat :: Block(data, q) == PieceBlock(src, parts, p, q)
  }

  /** The blocks in place q of all parts. */
  function FullRow(src: seq<bv8>, parts: nat, q: nat): (r: seq<seq<bv8>>)
    ensures |r| == parts + 1
    ensures forall b :: b in r ==> |b| == BLOCK
    ensures forall p :: 0 <= p <= parts ==> r[p] == PieceBlock(src, parts, p, q)
  {
    Row(src, parts, q) + [XorFold(Row(src, parts, q))]
  }

  /** Any one part is the xor of the others. */
  lemma LostPart(src: seq<bv8>, parts: nat, lost: nat, q: nat)
    requires lost <= parts
    ensures var row := FullRow(src, parts, q);
            && (forall b :: b in row[..lost] + row[lost + 1..] ==> |b| == BLOCK)
            && XorFold(row[..lost] + row[lost + 1..]) == PieceBlock(src, parts, lost, q)
  {
    ParityCancels(Row(src, parts, q));
    OneFromTheOthers(FullRow(src, parts, q), lost);
  }
}
