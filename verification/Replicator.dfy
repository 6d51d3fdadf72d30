/**
 replicate() in its SPLIT, RECOVER and JOIN modes. Sources are remote: a source is what its server
 answers to read requests, which by the contract of ChunkStore.Chunk.Read is the zero-extended
 contents of an intact chunk and the checksum of each block.
 */
module Replicator {
  import opened Crc32
  import opened Checksums
  import opened ChunkData
  import opened ChunkStore
  import opened Erasure

  const MAX_EC_PARTS: nat := 8

  /** A source chunk: its reported number of blocks, and its contents. */
  datatype Source = Source(blocks: nat, data: seq<bv8>) {
    predicate Valid() {
      blocks <= BLOCKS && |data| == blocks * BLOCK
    }
  }

  lemma ReadOn(data: seq<bv8>, b: nat)
    requires (b + 1) * BLOCK <= |data|
    ensures data[..b * BLOCK] + Block(data, b)[0..BLOCK] == data[..(b + 1) * BLOCK]
  {
    BlockOfFile(data, b);
  }

  /**
   A source read block by block through hdd_read, with the checksum of every block looked at: it
   answers in full exactly when it is intact.
   */
  method ReadSource(c: Chunk) returns (status: Status, x: Source)
    requires c.Shape()
    modifies c`block, c`blockno
    ensures c.Shape() && status == if c.Intact() then Done else CrcError
    ensures status == Done ==> x == Source(c.blocks, c.data) && x.Valid()
  {
    var data, b := [], 0;
    x := Source(0, []);
    while b < c.blocks
      invariant 0 <= b <= c.blocks && c.Shape() && data == c.data[..b * BLOCK]
      invariant forall i :: 0 <= i < b ==> c.crc[i] == c.k.crc(Block(c.data, i))
    {
      var buf, sum;
      status, buf, sum := c.Read(c.version, b, 0, BLOCK);
      if status != Done {
        return;
      }
      ReadOn(c.data, b);
      data := data + buf;
      b := b + 1;
    }
    x := Source(c.blocks, data);
    status := Done;
  }

  /** The blocks in place q of all sources. */
  function BlocksAt(srcs: seq<Source>, q: nat): (r: seq<seq<bv8>>)
    ensures |r| == |srcs|
    ensures forall b :: b in r ==> |b| == BLOCK
    ensures forall i :: 0 <= i < |srcs| ==> r[i] == Block(srcs[i].data, q)
  {
    seq(|srcs|, i requires 0 <= i < |srcs| => Block(srcs[i].data, q))
  }

  /** Zero-extended, data is the xor of the sources. */
  ghost predicate HoldsXor(data: seq<bv8>, srcs: seq<Source>) {
    forall q: nat :: Block(data, q) == XorFold(BlocksAt(srcs, q))
  }

  lemma BlockPut(was: seq<bv8>, now: seq<bv8>, n: nat, q: nat, buf: seq<bv8>)
    requires |buf| == BLOCK && (q + 1) * BLOCK <= n && |was| <= n && now == Overlay(was, n, q * BLOCK + 0, buf)
    ensures forall j :: Block(now, j) == if j == q then buf else Block(was, j)
  {
    WholeOverlay(was, n, q, buf);
  }

  /** One write-back of a whole block. */
  method PutBlock(c: Chunk, q: nat, buf: seq<bv8>, sum: bv32, sp: bool) returns (status: Status)
    requires c.Valid() && |buf| == BLOCK
    modifies c
    ensures c.Valid()
    ensures status == if q >= BLOCKS then BnumTooBig else if sum != c.k.crc(buf) then CrcError else Done
    ensures forall j :: Block(c.data, j) == if j == q && status == Done then buf else Block(old(c.data), j)
    ensures c.blocks == if status == Done && q >= old(c.blocks) then q + 1 else old(c.blocks)
  {
    ghost var was := c.data;
    status := c.Write(0, q, buf, 0, sum, sp);
    if status == Done {
      BlockPut(was, c.data, c.blocks * BLOCK, q, buf);
    }
    assert forall j :: Block(c.data, j) == if j == q && status == Done then buf else Block(was, j);
  }

  // ----- SPLIT -----

  /** The number of four-block groups of part partno that hold a source block. */
  function SplitGroups(blocks: nat, parts: nat, partno: nat): nat
    requires partno < parts
  {
    ((blocks + 3) / 4 + parts - 1 - partno) / parts
  }

  lemma DivLess(x: nat, n: nat, g: nat)
    requires n > 0
    ensures g < x / n <==> (g + 1) * n <= x
  {
    assert x == n * (x / n) + x % n;
    if g < x / n {
      assert (g + 1) * n <= x / n * n;
    } else {
      assert x / n + 1 <= g + 1;
      assert (x / n + 1) * n <= (g + 1) * n;
    }
  }

  /** SPLIT's group count is exact. */
  lemma SplitGroupsExact(blocks: nat, parts: nat, partno: nat, g: nat)
    requires partno < parts
    ensures g < SplitGroups(blocks, parts, partno) <==> SourceIndex(parts, partno, 4 * g) < blocks
  {
    DivLess((blocks + 3) / 4 + parts - 1 - partno, parts, g);
    assert (g + 1) * parts == g * parts + parts;
    assert SourceIndex(parts, partno, 4 * g) == (g * parts + partno) * 4;
  }

  /** A piece holds want(q) in every block below n and zeros from there on. */
  ghost predicate HoldsBelow(data: seq<bv8>, want: nat -> seq<bv8>, n: nat) {
    forall q: nat :: Block(data, q) == if q < n then want(q) else ZeroBytes(BLOCK)
  }

  lemma NothingHeld(data: seq<bv8>, want: nat -> seq<bv8>)
    requires data == []
    ensures HoldsBelow(data, want, 0)
  {
    forall q: nat ensures Block(data, q) == ZeroBytes(BLOCK) {
      BlockPastEnd(data, q);
    }
  }

  /** Writes the next block of a piece that is filled in order. */
  method PutNext(c: Chunk, n: nat, buf: seq<bv8>, sum: bv32, sp: bool, ghost want: nat -> seq<bv8>) returns (status: Status)
    requires c.Valid() && |buf| == BLOCK
    requires HoldsBelow(c.data, want, n) && buf == want(n)
    modifies c
    ensures c.Valid()
    ensures status == if n >= BLOCKS then BnumTooBig else if sum != c.k.crc(buf) then CrcError else Done
    ensures HoldsBelow(c.data, want, if status == Done then n + 1 else n)
    ensures c.blocks == if status == Done && n >= old(c.blocks) then n + 1 else old(c.blocks)
  {
    status := PutBlock(c, n, buf, sum, sp);
    forall q: nat
      ensures Block(c.data, q) == if q < (if status == Done then n + 1 else n) then want(q) else ZeroBytes(BLOCK)
    {
    }
  }

  /** Block s of the source, which is block q of the part. */
  method CopyBlock(c: Chunk, src: Source, s: nat, q: nat, sp: bool, ghost want: nat -> seq<bv8>)
    requires c.Valid() && q < BLOCKS && want(q) == Block(src.data, s) && HoldsBelow(c.data, want, q)
    modifies c
    ensures c.Valid() && HoldsBelow(c.data, want, q + 1)
  {
    var buf := Block(src.data, s);
    var status := PutNext(c, q, buf, c.k.crc(buf), sp, want);
  }

  /** Group b of data part partno, read block by block from the source. */
  method CopyGroup(c: Chunk, src: Source, parts: nat, partno: nat, b: nat, sp: bool, ghost want: nat -> seq<bv8>)
    requires c.Valid() && src.Valid() && partno < parts
    requires SourceIndex(parts, partno, 4 * b) < src.blocks
    requires forall q: nat :: want(q) == PieceBlock(src.data, parts, partno, q)
    requires HoldsBelow(c.data, want, 4 * b)
    modifies c
    ensures c.Valid() && HoldsBelow(c.data, want, 4 * (b + 1))
  {
    var bg, q := 0, 4 * b;
    while bg < 4
      invariant 0 <= bg <= 4 && q == 4 * b + bg
      invariant c.Valid() && HoldsBelow(c.data, want, q)
    {
      SplitTarget(src.blocks, parts, partno, b, bg);
      CopyBlock(c, src, (b * parts + partno) * 4 + bg, q, sp, want);
      bg, q := bg + 1, q + 1;
    }
  }

  /** replicate in SPLIT mode: one data part built from the whole chunk. */
  method Split(k: Sums, src: Source, partno: nat, parts: nat, sp: bool) returns (status: Status, c: Chunk)
    requires k.Lawful() && src.Valid()
    ensures fresh(c) && c.k == k && c.Valid()
    ensures status == if partno >= parts then Einval else Done
    ensures status == Done ==> HoldsPiece(c.data, src.data, parts, partno)
  {
    c := new Chunk.Create(k, 0);
    if partno >= parts {
      return Einval, c;
    }
    ghost var want := (q: nat) => PieceBlock(src.data, parts, partno, q);
    NothingHeld(c.data, want);
    var groups := SplitGroups(src.blocks, parts, partno);
    var b := 0;
    while b < groups
      invariant 0 <= b <= groups
      invariant fresh(c) && c.k == k && c.Valid()
      invariant HoldsBelow(c.data, want, 4 * b)
    {
      SplitGroupsExact(src.blocks, parts, partno, b);
      CopyGroup(c, src, parts, partno, b, sp, want);
      b := b + 1;
    }
    status := Done;
    forall q: nat ensures Block(c.data, q) == PieceBlock(src.data, parts, partno, q) {
      if q >= 4 * groups {
        SplitRest(src, parts, partno, q);
      }
    }
  }

  /** The blocks asked for and written while a group is copied. */
  lemma SplitTarget(blocks: nat, parts: nat, partno: nat, b: nat, bg: nat)
    requires partno < parts && bg < 4 && blocks <= BLOCKS
    requires SourceIndex(parts, partno, 4 * b) < blocks
    ensures SourceIndex(parts, partno, 4 * b + bg) == (b * parts + partno) * 4 + bg < BLOCKS
    ensures 4 * b + bg < BLOCKS
  {
    assert (4 * b + bg) / 4 == b && (4 * b + bg) % 4 == bg && 4 * b / 4 == b && 4 * b % 4 == 0;
    assert b * parts >= b;
  }

  lemma SplitRest(src: Source, parts: nat, partno: nat, q: nat)
    requires src.Valid() && partno < parts
    requires q >= 4 * SplitGroups(src.blocks, parts, partno)
    ensures PieceBlock(src.data, parts, partno, q) == ZeroBytes(BLOCK)
  {
    SplitGroupsExact(src.blocks, parts, partno, q / 4);
    assert SourceIndex(parts, partno, 4 * (q / 4)) <= SourceIndex(parts, partno, q);
    BlockPastEnd(src.data, SourceIndex(parts, partno, q));
  }

  // ----- RECOVER -----

  /** The largest number of blocks among the sources, in groups of four. */
  method Groups(srcs: seq<Source>) returns (groups: nat)
    requires forall x :: x in srcs ==> x.Valid()
    ensures forall x :: x in srcs ==> x.blocks <= 4 * groups
    ensures groups > 0 ==> exists x :: x in srcs && x.blocks > 4 * (groups - 1)
    ensures 4 * groups <= BLOCKS
  {
    var blocks: nat, i := 0, 0;
    while i < |srcs|
      invariant 0 <= i <= |srcs|
      invariant forall j :: 0 <= j < i ==> srcs[j].blocks <= blocks
      invariant blocks > 0 ==> exists x :: x in srcs && x.blocks == blocks
      invariant blocks <= BLOCKS
    {
      assert srcs[i] in srcs;
      if srcs[i].blocks > blocks {
        blocks := srcs[i].blocks;
      }
      i := i + 1;
    }
    groups := (blocks + 3) / 4;
  }

  lemma OneMoreSource(k: Sums, all: seq<seq<bv8>>, i: nat, x: seq<bv8>)
    requires i < |all| && all[i] == x && forall b :: b in all ==> |b| == BLOCK
    ensures forall b :: b in all[..i] ==> |b| == BLOCK
    ensures forall b :: b in all[..i + 1] ==> |b| == BLOCK
    ensures XorFold(all[..i + 1]) == XorBytes(XorFold(all[..i]), x)
    ensures Sum(k.xor, 0, Crcs(k, all[..i + 1])) == k.xor(Sum(k.xor, 0, Crcs(k, all[..i])), k.crc(x))
  {
    assert all[..i + 1] == all[..i] + [x];
    XorFoldSnoc(all[..i], x);
    SumCrcStep(k, all[..i], x);
  }

  /** The xor of block q of every source, and the checksum that goes with it. */
  method XorSources(k: Sums, srcs: seq<Source>, q: nat) returns (buf: seq<bv8>, sum: bv32)
    requires k.Lawful() && |srcs| > 0
    ensures buf == XorFold(BlocksAt(srcs, q))
    ensures sum == ParityCrc(k, Crcs(k, BlocksAt(srcs, q)))
  {
    ghost var all := BlocksAt(srcs, q);
    buf := Block(srcs[0].data, q);
    sum := k.crc(buf);
    FirstOperand(k, buf);
    assert all[..1] == [buf];
    var i := 1;
    while i < |srcs|
      invariant 1 <= i <= |srcs|
      invariant forall b :: b in all[..i] ==> |b| == BLOCK
      invariant buf == XorFold(all[..i])
      invariant sum == Sum(k.xor, 0, Crcs(k, all[..i]))
    {
      var x := Block(srcs[i].data, q);
      OneMoreSource(k, all, i, x);
      buf := XorBytes(buf, x);
      sum := k.xor(sum, k.crc(x));
      i := i + 1;
    }
    assert all[..i] == all;
    sum := k.xor(sum, k.Zeros(BLOCK));
  }

  lemma FirstOperand(k: Sums, b: seq<bv8>)
    requires k.Lawful() && |b| == BLOCK
    ensures XorFold([b]) == b
    ensures Sum(k.xor, 0, Crcs(k, [b])) == k.crc(b)
  {
    XorFoldEmpty();
    XorFoldSnoc([], b);
    assert [] + [b] == [b];
    XorWithZeros(b);
    SumCrcStep(k, [], b);
  }

  /** True when no byte of a buffer is set. */
  method IsZero(buf: seq<bv8>) returns (zero: bool)
    ensures zero == AllZero(buf)
  {
    var i := 0;
    while i < |buf|
      invariant 0 <= i <= |buf|
      invariant forall j :: 0 <= j < i ==> buf[j] == 0
    {
      if buf[i] != 0 {
        return false;
      }
      i := i + 1;
    }
    return true;
  }

  /**
   The block RECOVER obtains for place q, its checksum, and whether it is written: in the last group
   a block of zeros is not.
   */
  method RecoveredBlock(k: Sums, srcs: seq<Source>, q: nat, last: bool) returns (buf: seq<bv8>, sum: bv32, nonzero: bool)
    requires k.Lawful() && |srcs| > 0
    ensures buf == XorFold(BlocksAt(srcs, q))
    ensures |srcs| % 2 == 0 ==> sum == k.crc(buf)
    ensures |srcs| % 2 == 1 && k.Zeros(BLOCK) != 0 ==> sum != k.crc(buf) && nonzero
    ensures !nonzero ==> buf == ZeroBytes(BLOCK)
    ensures buf == ZeroBytes(BLOCK) && last && |srcs| % 2 == 0 ==> !nonzero
  {
    buf, sum := XorSources(k, srcs, q);
    FoldCrc(k, BlocksAt(srcs, q));
    nonzero := true;
    k.ZerosLaw(BLOCK);
    if last && sum == k.Zeros(BLOCK) {
      var zero := IsZero(buf);
      if zero {
        nonzero := false;
        assert buf == ZeroBytes(BLOCK);
      }
    }
    if |srcs| % 2 == 1 {
      OddFoldCrc(k, BlocksAt(srcs, q));
    }
  }

  /**
   The sources add up to nothing from place end on, and end lies in the last group of each source or
   behind it.
   */
  ghost predicate EndsBy(srcs: seq<Source>, end: nat) {
    && (forall q: nat :: q >= end ==> XorFold(BlocksAt(srcs, q)) == ZeroBytes(BLOCK))
    && (forall x :: x in srcs && x.blocks > 0 ==> (x.blocks - 1) / 4 * 4 <= end)
  }

  /** One block of RECOVER. The write is refused exactly when the checksums do not fit. */
  method RecoverBlock(c: Chunk, srcs: seq<Source>, q: nat, last: bool, sp: bool, ghost want: nat -> seq<bv8>)
    returns (status: Status)
    requires c.Valid() && |srcs| > 0 && q < BLOCKS
    requires HoldsBelow(c.data, want, q) && want(q) == XorFold(BlocksAt(srcs, q))
    modifies c
    ensures c.Valid()
    ensures |srcs| % 2 == 0 ==> status == Done
    ensures |srcs| % 2 == 1 && c.k.Zeros(BLOCK) != 0 ==> status == CrcError
    ensures status == Done ==> HoldsBelow(c.data, want, q + 1)
    ensures c.blocks == old(c.blocks) || c.blocks == q + 1
    ensures want(q) == ZeroBytes(BLOCK) && last && |srcs| % 2 == 0 ==> c.blocks == old(c.blocks)
  {
    var buf, sum, nonzero := RecoveredBlock(c.k, srcs, q, last);
    status := Done;
    if nonzero {
      status := PutNext(c, q, buf, sum, sp, want);
    }
  }

  /** All groups of RECOVER. */
  method RecoverGroups(c: Chunk, srcs: seq<Source>, groups: nat, sp: bool, ghost want: nat -> seq<bv8>, ghost end: nat)
    returns (status: Status)
    requires c.Valid() && |srcs| > 0 && 4 * groups <= BLOCKS
    requires c.blocks == 0 && HoldsBelow(c.data, want, 0) && forall q: nat :: want(q) == XorFold(BlocksAt(srcs, q))
    requires groups > 0 ==> 4 * (groups - 1) <= end
    requires forall q: nat :: q >= end ==> want(q) == ZeroBytes(BLOCK)
    modifies c
    ensures c.Valid()
    ensures |srcs| % 2 == 0 ==> status == Done && HoldsBelow(c.data, want, 4 * groups) && c.blocks <= end
    ensures |srcs| % 2 == 1 && c.k.Zeros(BLOCK) != 0 ==> status == if groups > 0 then CrcError else Done
  {
    var q := 0;
    while q < 4 * groups
      invariant 0 <= q <= 4 * groups
      invariant c.Valid()
      invariant HoldsBelow(c.data, want, q)
      invariant |srcs| % 2 == 0 ==> c.blocks <= q && c.blocks <= end
      invariant |srcs| % 2 == 1 && c.k.Zeros(BLOCK) != 0 ==> q == 0
    {
      status := RecoverBlock(c, srcs, q, q / 4 + 1 == groups, sp, want);
      if status != Done {
        return;
      }
      q := q + 1;
    }
    status := Done;
  }

  /** The last group of all sources begins at end or before. */
  lemma LastGroup(srcs: seq<Source>, groups: nat, end: nat)
    requires EndsBy(srcs, end)
    requires groups > 0 && exists x :: x in srcs && x.blocks > 4 * (groups - 1)
    ensures 4 * (groups - 1) <= end
  {
    var x :| x in srcs && x.blocks > 4 * (groups - 1);
  }

  /** RECOVER into a new chunk. */
  method RecoverInto(c: Chunk, srcs: seq<Source>, sp: bool, ghost end: nat) returns (status: Status)
    requires c.Valid() && c.blocks == 0 && c.data == []
    requires |srcs| > 0 && (forall x :: x in srcs ==> x.Valid()) && EndsBy(srcs, end)
    modifies c
    ensures c.Valid()
    ensures |srcs| % 2 == 0 ==> status == Done && HoldsXor(c.data, srcs) && c.blocks <= end
    ensures |srcs| % 2 == 1 && c.k.Zeros(BLOCK) != 0 ==>
              status == if exists x :: x in srcs && x.blocks > 0 then CrcError else Done
  {
    ghost var want := (q: nat) => XorFold(BlocksAt(srcs, q));
    NothingHeld(c.data, want);
    var groups := Groups(srcs);
    if groups > 0 {
      LastGroup(srcs, groups, end);
    }
    status := RecoverGroups(c, srcs, groups, sp, want, end);
    if |srcs| % 2 == 0 {
      RecoveredAll(srcs, want, groups, c.data);
    }
  }

  /** replicate in RECOVER mode. */
  method Recover(k: Sums, srcs: seq<Source>, sp: bool, ghost end: nat) returns (status: Status, c: Chunk)
    requires k.Lawful() && (forall x :: x in srcs ==> x.Valid()) && EndsBy(srcs, end)
    ensures fresh(c) && c.k == k && c.Valid()
    ensures |srcs| == 0 || |srcs| > MAX_EC_PARTS ==> status == Einval
    ensures 0 < |srcs| <= MAX_EC_PARTS && |srcs| % 2 == 0 ==>
              status == Done && HoldsXor(c.data, srcs) && c.blocks <= end
    ensures 0 < |srcs| <= MAX_EC_PARTS && |srcs| % 2 == 1 && k.Zeros(BLOCK) != 0 ==>
              status == if exists x :: x in srcs && x.blocks > 0 then CrcError else Done
  {
    c := new Chunk.Create(k, 0);
    if |srcs| == 0 || |srcs| > MAX_EC_PARTS {
      return Einval, c;
    }
    status := RecoverInto(c, srcs, sp, end);
  }

  lemma RecoveredAll(srcs: seq<Source>, want: nat -> seq<bv8>, groups: nat, data: seq<bv8>)
    requires forall x :: x in srcs ==> x.Valid() && x.blocks <= 4 * groups
    requires forall q: nat :: want(q) == XorFold(BlocksAt(srcs, q))
    requires HoldsBelow(data, want, 4 * groups)
    ensures HoldsXor(data, srcs)
  {
    forall q: nat ensures Block(data, q) == XorFold(BlocksAt(srcs, q)) {
      if q >= 4 * groups {
        XorOfNothing(srcs, q, groups);
      }
    }
  }

  lemma XorOfNothing(srcs: seq<Source>, q: nat, groups: nat)
    requires forall x :: x in srcs ==> x.Valid() && x.blocks <= 4 * groups
    requires q >= 4 * groups
    ensures XorFold(BlocksAt(srcs, q)) == ZeroBytes(BLOCK)
  {
    forall i | 0 <= i < |srcs| ensures BlocksAt(srcs, q)[i] == ZeroBytes(BLOCK) {
      assert srcs[i] in srcs;
      BlockPastEnd(srcs[i].data, q);
    }
    XorOfZeros(BlocksAt(srcs, q));
  }

  // ----- JOIN -----

  /** The contents of place s of the joined chunk. */
  function Joined(srcs: seq<Source>, s: nat): (b: seq<bv8>)
    requires |srcs| > 0
    ensures |b| == BLOCK
  {
    Block(srcs[PartOf(|srcs|, s)].data, PlaceOf(|srcs|, s))
  }

  /** Every block of every source has its place within a chunk. */
  ghost predicate Fits(srcs: seq<Source>) {
    forall i :: 0 <= i < |srcs| && srcs[i].blocks > 0 ==> SourceIndex(|srcs|, i, srcs[i].blocks - 1) < BLOCKS
  }

  /** The number of sources that still have blocks in the last group. */
  method LastSources(srcs: seq<Source>, groups: nat) returns (n: nat)
    ensures n <= |srcs|
    ensures groups == 0 ==> n == |srcs|
    ensures groups > 0 ==> forall i :: n <= i < |srcs| ==> srcs[i].blocks <= 4 * (groups - 1)
    ensures groups > 0 && n > 0 ==> srcs[n - 1].blocks > 4 * (groups - 1)
  {
    n := |srcs|;
    if groups > 0 {
      while n > 0 && srcs[n - 1].blocks <= 4 * (groups - 1)
        invariant 0 <= n <= |srcs|
        invariant forall i :: n <= i < |srcs| ==> srcs[i].blocks <= 4 * (groups - 1)
      {
        n := n - 1;
      }
    }
  }

  /** The places JOIN writes, counted in blocks. */
  function JoinSize(parts: nat, groups: nat, lastsrc: nat): nat {
    if groups == 0 then 0 else ((groups - 1) * parts + lastsrc) * 4
  }

  /** Where group b of source i goes. */
  lemma JoinPlace(srcs: seq<Source>, i: nat, b: nat, bg: nat)
    requires i < |srcs| && bg < 4
    ensures Joined(srcs, (b * |srcs| + i) * 4 + bg) == Block(srcs[i].data, 4 * b + bg)
  {
    LayoutInverse(|srcs|, i, 4 * b + bg, 0);
    assert (4 * b + bg) / 4 == b && (4 * b + bg) % 4 == bg;
  }

  /** Block bg of group b of a source is wanted as block bg of group g. */
  ghost predicate WantsBlock(want: nat -> seq<bv8>, x: Source, g: nat, b: nat, bg: nat) {
    want(g * 4 + bg) == Block(x.data, 4 * b + bg)
  }

  lemma JoinGroupPlaces(srcs: seq<Source>, i: nat, b: nat, g: nat, want: nat -> seq<bv8>)
    requires i < |srcs| && g == b * |srcs| + i && forall s: nat :: want(s) == Joined(srcs, s)
    ensures forall bg: nat :: bg < 4 ==> WantsBlock(want, srcs[i], g, b, bg)
  {
    forall bg: nat | bg < 4 ensures WantsBlock(want, srcs[i], g, b, bg) {
      JoinPlace(srcs, i, b, bg);
    }
  }

  lemma BlocksInFours(g: nat, bg: nat)
    requires bg < 4 && g * 4 + bg >= BLOCKS
    ensures (g + 1) * 4 > BLOCKS
  {
  }

  /** Block b of a source, which is block q of the chunk. */
  method JoinBlock(c: Chunk, x: Source, b: nat, q: nat, sp: bool, ghost want: nat -> seq<bv8>) returns (status: Status)
    requires c.Valid() && want(q) == Block(x.data, b) && HoldsBelow(c.data, want, q)
    modifies c
    ensures c.Valid() && status == if q < BLOCKS then Done else BnumTooBig
    ensures status == Done ==> HoldsBelow(c.data, want, q + 1)
  {
    var buf := Block(x.data, b);
    status := PutNext(c, q, buf, c.k.crc(buf), sp, want);
  }

  /** Group b of source i, which is group g of the chunk. */
  method JoinGroup(c: Chunk, srcs: seq<Source>, b: nat, i: nat, g: nat, sp: bool, ghost want: nat -> seq<bv8>)
    returns (status: Status)
    requires c.Valid() && i < |srcs|
    requires forall bg: nat :: bg < 4 ==> WantsBlock(want, srcs[i], g, b, bg)
    requires HoldsBelow(c.data, want, g * 4)
    modifies c
    ensures c.Valid()
    ensures status == if (g + 1) * 4 <= BLOCKS then Done else BnumTooBig
    ensures status == Done ==> HoldsBelow(c.data, want, (g + 1) * 4)
  {
    var bg, q := 0, g * 4;
    while bg < 4
      invariant 0 <= bg <= 4 && q == g * 4 + bg
      invariant c.Valid() && HoldsBelow(c.data, want, q)
      invariant bg > 0 ==> q <= BLOCKS
    {
      assert WantsBlock(want, srcs[i], g, b, bg);
      status := JoinBlock(c, srcs[i], 4 * b + bg, q, sp, want);
      if status != Done {
        BlocksInFours(g, bg);
        return;
      }
      bg, q := bg + 1, q + 1;
    }
    status := Done;
  }

  /** One row: group b of the first n sources. */
  method JoinRow(c: Chunk, srcs: seq<Source>, b: nat, n: nat, sp: bool, ghost want: nat -> seq<bv8>)
    returns (status: Status)
    requires c.Valid() && |srcs| > 0 && n <= |srcs|
    requires forall s: nat :: want(s) == Joined(srcs, s)
    requires HoldsBelow(c.data, want, b * |srcs| * 4) && b * |srcs| * 4 <= BLOCKS
    modifies c
    ensures c.Valid()
    ensures status == if (b * |srcs| + n) * 4 <= BLOCKS then Done else BnumTooBig
    ensures status == Done ==> HoldsBelow(c.data, want, (b * |srcs| + n) * 4)
  {
    var i, g := 0, b * |srcs|;
    while i < n
      invariant 0 <= i <= n && g == b * |srcs| + i
      invariant c.Valid() && g * 4 <= BLOCKS && HoldsBelow(c.data, want, g * 4)
    {
      JoinGroupPlaces(srcs, i, b, g, want);
      status := JoinGroup(c, srcs, b, i, g, sp, want);
      if status != Done {
        return;
      }
      i, g := i + 1, g + 1;
    }
    status := Done;
  }

  /** All rows: every source up to the last group, and in it only those that reach it. */
  method JoinRows(c: Chunk, srcs: seq<Source>, groups: nat, lastsrc: nat, sp: bool, ghost want: nat -> seq<bv8>)
    returns (status: Status)
    requires c.Valid() && |srcs| > 0 && lastsrc <= |srcs|
    requires forall s: nat :: want(s) == Joined(srcs, s)
    requires HoldsBelow(c.data, want, 0)
    modifies c
    ensures c.Valid()
    ensures status == if JoinSize(|srcs|, groups, lastsrc) <= BLOCKS then Done else BnumTooBig
    ensures status == Done ==> HoldsBelow(c.data, want, JoinSize(|srcs|, groups, lastsrc))
  {
    var srccnt := |srcs|;
    if groups == 1 {
      srccnt := lastsrc;
    }
    var b := 0;
    while b < groups
      invariant 0 <= b <= groups
      invariant c.Valid()
      invariant b < groups ==> b * |srcs| * 4 <= BLOCKS && HoldsBelow(c.data, want, b * |srcs| * 4)
      invariant b == groups ==>
                  JoinSize(|srcs|, groups, lastsrc) <= BLOCKS && HoldsBelow(c.data, want, JoinSize(|srcs|, groups, lastsrc))
    {
      var readsrccnt := if b + 1 == groups then lastsrc else srccnt;
      status := JoinRow(c, srcs, b, readsrccnt, sp, want);
      if status != Done {
        RowsGrow(|srcs|, b, groups, lastsrc);
        return;
      }
      assert b * |srcs| + |srcs| == (b + 1) * |srcs|;
      b := b + 1;
    }
    status := Done;
  }

  lemma RowsGrow(parts: nat, b: nat, groups: nat, lastsrc: nat)
    requires b < groups
    ensures b + 1 < groups ==> (b * parts + parts) * 4 <= JoinSize(parts, groups, lastsrc)
  {
    if b + 1 < groups {
      assert (b + 1) * parts <= (groups - 1) * parts;
      assert (b + 1) * parts == b * parts + parts;
    }
  }

  /** JOIN stays within a chunk exactly when every source block has a place there. */
  lemma JoinFits(srcs: seq<Source>, groups: nat, lastsrc: nat)
    requires forall i :: 0 <= i < |srcs| ==> srcs[i].blocks <= 4 * groups
    requires groups > 0 ==> exists i :: 0 <= i < |srcs| && srcs[i].blocks > 4 * (groups - 1)
    requires lastsrc <= |srcs|
    requires groups > 0 ==> forall i :: lastsrc <= i < |srcs| ==> srcs[i].blocks <= 4 * (groups - 1)
    requires groups > 0 && lastsrc > 0 ==> srcs[lastsrc - 1].blocks > 4 * (groups - 1)
    ensures JoinSize(|srcs|, groups, lastsrc) <= BLOCKS <==> Fits(srcs)
  {
    if groups > 0 {
      if JoinSize(|srcs|, groups, lastsrc) <= BLOCKS {
        forall i | 0 <= i < |srcs| && srcs[i].blocks > 0
          ensures SourceIndex(|srcs|, i, srcs[i].blocks - 1) < BLOCKS
        {
          var r := (srcs[i].blocks - 1) / 4;
          RowsGrow(|srcs|, r, groups, lastsrc);
        }
      }
      if Fits(srcs) {
        var i := lastsrc - 1;
        assert (srcs[i].blocks - 1) / 4 == groups - 1;
        assert SourceIndex(|srcs|, i, srcs[i].blocks - 1) < BLOCKS;
      }
    }
  }

  /** Past the places JOIN writes there is nothing to write. */
  lemma JoinRest(srcs: seq<Source>, groups: nat, lastsrc: nat, s: nat)
    requires |srcs| > 0
    requires forall x :: x in srcs ==> x.Valid() && x.blocks <= 4 * groups
    requires groups > 0 ==> forall i :: lastsrc <= i < |srcs| ==> srcs[i].blocks <= 4 * (groups - 1)
    requires s >= JoinSize(|srcs|, groups, lastsrc)
    ensures Joined(srcs, s) == ZeroBytes(BLOCK)
  {
    var p, q := PartOf(|srcs|, s), PlaceOf(|srcs|, s);
    LayoutInverse(|srcs|, 0, 0, s);
    assert srcs[p] in srcs;
    if groups > 0 && q / 4 < groups - 1 {
      RowsGrow(|srcs|, q / 4, groups, lastsrc);
      assert false;
    }
    BlockPastEnd(srcs[p].data, q);
  }

  /** replicate in JOIN mode: the chunk whose parts are the sources. */
  method Join(k: Sums, srcs: seq<Source>, sp: bool) returns (status: Status, c: Chunk)
    requires k.Lawful() && forall x :: x in srcs ==> x.Valid()
    ensures fresh(c) && c.k == k && c.Valid()
    ensures |srcs| == 0 || |srcs| > MAX_EC_PARTS ==> status == Einval
    ensures 0 < |srcs| <= MAX_EC_PARTS ==> status == if Fits(srcs) then Done else BnumTooBig
    ensures status == Done ==> |srcs| > 0 && forall s: nat :: Block(c.data, s) == Joined(srcs, s)
  {
    c := new Chunk.Create(k, 0);
    if |srcs| == 0 || |srcs| > MAX_EC_PARTS {
      return Einval, c;
    }
    ghost var want := (s: nat) => Joined(srcs, s);
    NothingHeld(c.data, want);
    var groups := Groups(srcs);
    var lastsrc := LastSources(srcs, groups);
    JoinFits(srcs, groups, lastsrc);
    status := JoinRows(c, srcs, groups, lastsrc, sp, want);
    if status == Done {
      forall s: nat ensures Block(c.data, s) == Joined(srcs, s) {
        if s >= JoinSize(|srcs|, groups, lastsrc) {
          JoinRest(srcs, groups, lastsrc, s);
        }
      }
    }
  }
}
