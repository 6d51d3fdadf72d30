/**
 Copies of a chunk: hdd_int_duplicate, hdd_int_duptrunc, and how far the second equals the first
 followed by a truncation of the copy.
 */
module ChunkCopy {
  import opened Crc32
  import opened Checksums
  import opened ChunkData
  import opened ChunkStore

  /** d, zero-extended to n bytes, is the first n bytes of src. */
  ghost predicate Holds(d: seq<bv8>, src: seq<bv8>, n: nat) {
    |d| <= n && Ftruncate(d, n) == Ftruncate(src, n)
  }

  /** Appends a buffer at pos, leaving out the zeros at its ends when sparsifying. */
  method AppendSparse(d: seq<bv8>, pos: nat, buf: seq<bv8>, sp: bool) returns (g: seq<bv8>, truncneeded: bool)
    requires |d| <= pos && |buf| > 0
    ensures |g| <= pos + |buf|
    ensures !truncneeded ==> |g| == pos + |buf|
    ensures Ftruncate(g, pos + |buf|) == Overlay(d, pos + |buf|, pos, buf)
  {
    var s, e := 0, |buf|;
    if sp {
      s, e := SparseRange(buf, 0);
    }
    g := d;
    if s != e {
      g := Pwrite(d, pos + s, buf[s..e]);
    }
    truncneeded := e != |buf| || s == e;
    SparseIsOverlay(d, g, pos, buf, s, e);
  }

  lemma SparseIsOverlay(d: seq<bv8>, g: seq<bv8>, pos: nat, buf: seq<bv8>, s: nat, e: nat)
    requires |d| <= pos
    requires Covers(buf, 0, s, e)
    requires s == e ==> AllZero(buf)
    requires g == if s == e then d else Pwrite(d, pos + s, buf[s..e])
    ensures |g| <= pos + |buf|
    ensures Ftruncate(g, pos + |buf|) == Overlay(d, pos + |buf|, pos, buf)
  {
    var n := pos + |buf|;
    if s != e {
      OverlayTrim(d, n, pos, buf, s, e);
      assert Ftruncate(g, n) == Overlay(d, n, pos + s, buf[s..e]);
    }
  }

  /** One more block. */
  lemma HoldsNext(d: seq<bv8>, g: seq<bv8>, src: seq<bv8>, b: nat)
    requires Holds(d, src, b * BLOCK)
    requires |g| <= (b + 1) * BLOCK
    requires Ftruncate(g, (b + 1) * BLOCK) == Overlay(d, (b + 1) * BLOCK, b * BLOCK, Block(src, b))
    ensures Holds(g, src, (b + 1) * BLOCK)
  {
    var n := (b + 1) * BLOCK;
    var x, y := Ftruncate(g, n), Ftruncate(src, n);
    forall i | 0 <= i < n ensures x[i] == y[i] {
      if i < b * BLOCK {
        assert Ftruncate(d, b * BLOCK)[i] == Ftruncate(src, b * BLOCK)[i];
      } else {
        assert Block(src, b)[i - b * BLOCK] == ByteAt(src, i);
      }
    }
  }

  /** Block b of the source, from its cache or its file. */
  method SourceBlock(oc: Chunk, b: nat) returns (blk: seq<bv8>)
    requires oc.Shape() && b < oc.blocks
    ensures blk == Block(oc.data, b)
  {
    if oc.blockno == b {
      blk := oc.block;
    } else {
      BlockOfFile(oc.data, b);
      blk := Pread(oc.data, b * BLOCK, BLOCK);
    }
  }

  /** The loop shared by all copies: the first m blocks of the source, sparsified one by one. */
  method CopyBlocks(oc: Chunk, m: nat, sp: bool) returns (d: seq<bv8>, last: seq<bv8>, truncneeded: bool)
    requires oc.Shape() && m <= oc.blocks
    ensures Holds(d, oc.data, m * BLOCK)
    ensures m > 0 ==> last == Block(oc.data, m - 1)
    ensures !truncneeded ==> |d| == m * BLOCK
  {
    d, last, truncneeded := [], [], false;
    var b := 0;
    while b < m
      invariant 0 <= b <= m
      invariant Holds(d, oc.data, b * BLOCK)
      invariant b > 0 ==> last == Block(oc.data, b - 1)
      invariant !truncneeded ==> |d| == b * BLOCK
    {
      last := SourceBlock(oc, b);
      var g;
      g, truncneeded := AppendSparse(d, b * BLOCK, last, sp);
      HoldsNext(d, g, oc.data, b);
      d := g;
      b := b + 1;
    }
  }

  /** A table whose entries from n on are those of empty blocks. */
  function ClearTail(k: Sums, t: seq<bv32>, n: nat): (r: seq<bv32>)
    requires |t| == BLOCKS && n <= BLOCKS
    ensures |r| == BLOCKS
    ensures forall i :: 0 <= i < BLOCKS ==> r[i] == if i < n then t[i] else k.Zeros(BLOCK)
  {
    t[..n] + seq(BLOCKS - n, _ => k.Zeros(BLOCK))
  }

  /** The first full blocks of a copy, cut to a multiple of the block size. */
  lemma WholeBlocks(d: seq<bv8>, src: seq<bv8>, m: nat)
    requires Holds(d, src, m * BLOCK) && m * BLOCK <= |src|
    ensures Ftruncate(d, m * BLOCK) == Cut(src, m * BLOCK, m * BLOCK)
    ensures |d| == m * BLOCK ==> d == Cut(src, m * BLOCK, m * BLOCK)
  {
    assert |d| == m * BLOCK ==> Ftruncate(d, m * BLOCK) == d;
  }

  /** The data of a copy of m full blocks. */
  method CopyWhole(oc: Chunk, m: nat, sp: bool) returns (d: seq<bv8>, last: seq<bv8>)
    requires oc.Shape() && m <= oc.blocks
    ensures d == Cut(oc.data, m * BLOCK, m * BLOCK)
    ensures m > 0 ==> last == Block(oc.data, m - 1)
  {
    var truncneeded;
    d, last, truncneeded := CopyBlocks(oc, m, sp);
    WholeBlocks(d, oc.data, m);
    if truncneeded {
      d := Ftruncate(d, m * BLOCK);
    }
  }

  lemma CutAll(f: seq<bv8>)
    ensures Cut(f, |f|, |f|) == f
  {
  }

  /** The common start of both copies: version check, new version, choice of the copy's version. */
  method BeginCopy(oc: Chunk, ver: nat, newver: nat, copyver: nat) returns (status: Status, v: nat)
    requires oc.Shape()
    modifies oc
    ensures oc.Shape()
    ensures oc.data == old(oc.data) && oc.blocks == old(oc.blocks) && oc.crc == old(oc.crc)
    ensures oc.block == old(oc.block) && oc.blockno == old(oc.blockno)
    ensures status == if old(oc.version) != ver && ver > 0 then WrongVersion else Done
    ensures oc.version == if status == Done && newver != ver then newver else old(oc.version)
    ensures status == Done ==> v == if copyver == 0 then newver else copyver
    ensures status == Done ==> !oc.crcchanged
    ensures status != Done ==> oc.crcchanged == old(oc.crcchanged) && oc.disk == old(oc.disk)
  {
    v := copyver;
    if oc.version != ver && ver > 0 {
      return WrongVersion, v;
    }
    if copyver == 0 {
      v := newver;
    }
    if newver != ver {
      oc.version := newver;
    }
    oc.IoEnd();
    status := Done;
  }

  /** hdd_int_duplicate. */
  method Duplicate(oc: Chunk, ver: nat, newver: nat, copyver: nat, sp: bool) returns (status: Status, c: Chunk?)
    requires oc.Shape()
    modifies oc
    ensures oc.Shape() && oc.data == old(oc.data) && oc.blocks == old(oc.blocks) && oc.crc == old(oc.crc)
    ensures status == if old(oc.version) != ver && ver > 0 then WrongVersion else Done
    ensures oc.version == if status == Done && newver != ver then newver else old(oc.version)
    ensures status != Done ==> c == null
    ensures status == Done ==>
              && c != null && fresh(c) && c.k == oc.k && c.Shape()
              && c.version == (if copyver == 0 then newver else copyver) && !c.crcchanged
              && c.blocks == oc.blocks && c.data == oc.data && c.crc == oc.crc
              && c.disk == ClearTail(oc.k, oc.crc, oc.blocks)
  {
    var v;
    status, v := BeginCopy(oc, ver, newver, copyver);
    if status != Done {
      return status, null;
    }
    var d, last := CopyWhole(oc, oc.blocks, sp);
    CutAll(oc.data);
    var disk := ClearTail(oc.k, oc.crc, oc.blocks);
    if oc.blocks > 0 {
      c := new Chunk.Copied(oc.k, v, oc.blocks, d, oc.crc, disk, last, oc.blocks - 1);
    } else {
      c := new Chunk.Copied(oc.k, v, 0, d, oc.crc, disk, ZeroBytes(BLOCK), NOBLOCK);
    }
  }

  /** The table that hdd_int_duptrunc builds: unlike a truncation it clears the whole tail. */
  ghost predicate TableOfDupTrunc(
    k: Sums, crc: seq<bv32>, data: seq<bv8>, was: seq<bv32>, wasBlocks: nat, length: nat)
  {
    && |crc| == |was| == BLOCKS
    && forall i :: 0 <= i < BLOCKS ==>
         var n := BlocksOf(length);
         crc[i] ==
           if i < n && i < wasBlocks then
             if length % BLOCK != 0 && i == n - 1 then k.crc(Block(data, i)) else was[i]
           else k.Zeros(BLOCK)
  }

  /** Expanding: all blocks of the source, then zeros. */
  method CopyExpanded(oc: Chunk, length: nat, sp: bool) returns (d: seq<bv8>, last: seq<bv8>, table: seq<bv32>)
    requires oc.Shape() && length <= CHUNK && BlocksOf(length) > oc.blocks
    ensures d == Cut(oc.data, length, BlocksOf(length) * BLOCK)
    ensures oc.blocks > 0 ==> last == Block(d, oc.blocks - 1)
    ensures TableOfDupTrunc(oc.k, table, d, oc.crc, oc.blocks, length)
  {
    var n := BlocksOf(length);
    d, last := CopyWhole(oc, oc.blocks, sp);
    CutAll(oc.data);
    d := Ftruncate(d, n * BLOCK);
    TruncateLonger(oc.data, length, n * BLOCK);
    if oc.blocks > 0 {
      CutBlocks(oc.data, length, n, oc.blocks - 1);
    }
    table := ClearTail(oc.k, oc.crc, oc.blocks);
  }

  /** Shrinking to a block boundary. */
  method CopyAligned(oc: Chunk, length: nat, sp: bool) returns (d: seq<bv8>, last: seq<bv8>, table: seq<bv32>)
    requires oc.Shape() && BlocksOf(length) <= oc.blocks && length % BLOCK == 0
    ensures d == Cut(oc.data, length, BlocksOf(length) * BLOCK)
    ensures BlocksOf(length) > 0 ==> last == Block(d, BlocksOf(length) - 1)
    ensures TableOfDupTrunc(oc.k, table, d, oc.crc, oc.blocks, length)
  {
    var n := BlocksOf(length);
    d, last := CopyWhole(oc, n, sp);
    if n > 0 {
      CutBlocks(oc.data, length, n, n - 1);
    }
    table := ClearTail(oc.k, oc.crc, n);
  }

  /** The shortened last block: its first size bytes, from the cache or the file, then zeros. */
  method LastBlock(oc: Chunk, b: nat, size: nat) returns (head: seq<bv8>, blk: seq<bv8>, sum: bv32)
    requires oc.Shape() && b < oc.blocks && 0 < size < BLOCK
    ensures head == Block(oc.data, b)[..size]
    ensures blk == head + ZeroBytes(BLOCK - size)
    ensures sum == oc.k.crc(blk)
  {
    if oc.blockno == b {
      head := oc.block[..size];
    } else {
      BlockOfFile(oc.data, b);
      head := Pread(oc.data, b * BLOCK, size);
      assert head == Block(oc.data, b)[..size];
    }
    blk := head + ZeroBytes(BLOCK - size);
    sum := oc.k.zeroRun(oc.k.crc(head), BLOCK - size);
    assert oc.k.ExtendsAt(head, BLOCK - size);
  }

  lemma CutInside(d: seq<bv8>, g: seq<bv8>, src: seq<bv8>, b: nat, size: nat)
    requires (b + 1) * BLOCK <= |src| && 0 < size < BLOCK
    requires Holds(d, src, b * BLOCK)
    requires |g| <= b * BLOCK + size
    requires Ftruncate(g, b * BLOCK + size)
          == Overlay(d, b * BLOCK + size, b * BLOCK, Block(src, b)[..size])
    ensures Ftruncate(g, (b + 1) * BLOCK) == Cut(src, b * BLOCK + size, (b + 1) * BLOCK)
  {
    var n, len := (b + 1) * BLOCK, b * BLOCK + size;
    var x, y := Ftruncate(g, n), Cut(src, len, n);
    forall i | 0 <= i < n ensures x[i] == y[i] {
      if i < b * BLOCK {
        assert Ftruncate(g, len)[i] == ByteAt(g, i);
        assert Ftruncate(d, b * BLOCK)[i] == Ftruncate(src, b * BLOCK)[i];
      } else if i < len {
        assert Ftruncate(g, len)[i] == ByteAt(g, i);
        assert Block(src, b)[..size][i - b * BLOCK] == ByteAt(src, i);
      }
    }
  }

  lemma LastOfCut(src: seq<bv8>, b: nat, size: nat)
    requires size < BLOCK
    ensures Block(Cut(src, b * BLOCK + size, (b + 1) * BLOCK), b) == Block(src, b)[..size] + ZeroBytes(BLOCK - size)
  {
    CutBlocks(src, b * BLOCK + size, b + 1, b);
  }

  /** The data of a copy that ends inside block b. */
  method CopyInsideData(oc: Chunk, b: nat, size: nat, sp: bool) returns (d: seq<bv8>, last: seq<bv8>, sum: bv32)
    requires oc.Shape() && b < oc.blocks && 0 < size < BLOCK
    ensures d == Cut(oc.data, b * BLOCK + size, (b + 1) * BLOCK)
    ensures last == Block(d, b)
    ensures sum == oc.k.crc(last)
  {
    var truncneeded;
    d, last, truncneeded := CopyBlocks(oc, b, sp);
    var head, blk, s := LastBlock(oc, b, size);
    var g;
    g, truncneeded := AppendSparse(d, b * BLOCK, head, sp);
    CutInside(d, g, oc.data, b, size);
    d := Ftruncate(g, (b + 1) * BLOCK);
    LastOfCut(oc.data, b, size);
    last, sum := blk, s;
  }

  /** Shrinking to the inside of a block. */
  method CopyInside(oc: Chunk, length: nat, sp: bool) returns (d: seq<bv8>, last: seq<bv8>, table: seq<bv32>)
    requires oc.Shape() && BlocksOf(length) <= oc.blocks && length % BLOCK > 0
    ensures d == Cut(oc.data, length, BlocksOf(length) * BLOCK)
    ensures last == Block(d, BlocksOf(length) - 1)
    ensures TableOfDupTrunc(oc.k, table, d, oc.crc, oc.blocks, length)
  {
    var b := BlocksOf(length) - 1;
    var sum;
    d, last, sum := CopyInsideData(oc, b, length % BLOCK, sp);
    assert b * BLOCK + length % BLOCK == length;
    table := ClearTail(oc.k, oc.crc[b := sum], b + 1);
  }

  /** hdd_int_duptrunc, for source and copy with headers of the same size. */
  method DupTrunc(oc: Chunk, ver: nat, newver: nat, copyver: nat, length: nat, sp: bool) returns (status: Status, c: Chunk?)
    requires oc.Shape()
    modifies oc
    ensures oc.Shape() && oc.data == old(oc.data) && oc.blocks == old(oc.blocks) && oc.crc == old(oc.crc)
    ensures status == if length > CHUNK then WrongSize
                      else if old(oc.version) != ver && ver > 0 then WrongVersion else Done
    ensures oc.version == if status == Done && newver != ver then newver else old(oc.version)
    ensures status != Done ==> c == null
    ensures status == Done ==>
              && c != null && fresh(c) && c.k == oc.k && c.Shape()
              && c.version == (if copyver == 0 then newver else copyver) && !c.crcchanged
              && c.blocks == BlocksOf(length) && c.data == Cut(oc.data, length, BlocksOf(length) * BLOCK)
              && TableOfDupTrunc(oc.k, c.crc, c.data, oc.crc, oc.blocks, length) && c.disk == c.crc
  {
    if length > CHUNK {
      return WrongSize, null;
    }
    var v;
    status, v := BeginCopy(oc, ver, newver, copyver);
    if status != Done {
      return status, null;
    }
    var n := BlocksOf(length);
    var d, last, table;
    var m := n;
    if n > oc.blocks {
      d, last, table := CopyExpanded(oc, length, sp);
      m := oc.blocks;
    } else if length % BLOCK == 0 {
      d, last, table := CopyAligned(oc, length, sp);
    } else {
      d, last, table := CopyInside(oc, length, sp);
    }
    if m > 0 {
      c := new Chunk.Copied(oc.k, v, n, d, table, table, last, m - 1);
    } else {
      c := new Chunk.Copied(oc.k, v, n, d, table, table, ZeroBytes(BLOCK), NOBLOCK);
    }
  }

  /** The source of a copy is sound, and so is the copy. */
  lemma CopyAgrees(k: Sums, crc: seq<bv32>, data: seq<bv8>, was: seq<bv32>, wasData: seq<bv8>, wasBlocks: nat, length: nat)
    requires k.Lawful() && length <= CHUNK
    requires wasBlocks <= BLOCKS && |wasData| == wasBlocks * BLOCK
    requires data == Cut(wasData, length, BlocksOf(length) * BLOCK)
    requires TableOfDupTrunc(k, crc, data, was, wasBlocks, length)
    requires Agrees(k, wasData, was, wasBlocks)
    ensures Agrees(k, data, crc, BlocksOf(length))
  {
    var n := BlocksOf(length);
    forall i | 0 <= i < n ensures crc[i] == k.crc(Block(data, i)) {
      CutBlocks(wasData, length, n, i);
      if i >= wasBlocks {
        k.ZerosLaw(BLOCK);
      }
    }
  }

  /** Past both ends the table of the source holds checksums of empty blocks. */
  ghost predicate EmptyTail(k: Sums, crc: seq<bv32>, blocks: nat, length: nat)
    requires |crc| == BLOCKS
  {
    forall i :: BlocksOf(length) <= i < BLOCKS && blocks <= i ==> crc[i] == k.Zeros(BLOCK)
  }

  /**
   The tables of the two ways to make a shortened copy agree on every block of the copy. They are
   equal exactly when the source's table already held empty-block checksums past both ends.
   */
  lemma DupTruncTables(k: Sums, direct: seq<bv32>, twoStep: seq<bv32>, data: seq<bv8>,
                       was: seq<bv32>, wasBlocks: nat, length: nat)
    requires TableOfDupTrunc(k, direct, data, was, wasBlocks, length)
    requires TableAfterTruncate(k, twoStep, data, was, wasBlocks, length)
    requires BlocksOf(length) <= BLOCKS
    ensures direct[..BlocksOf(length)] == twoStep[..BlocksOf(length)]
    ensures direct == twoStep <==> EmptyTail(k, was, wasBlocks, length)
  {
    var n := BlocksOf(length);
    if direct == twoStep {
      forall i | n <= i < BLOCKS && wasBlocks <= i ensures was[i] == k.Zeros(BLOCK) {
        assert direct[i] == twoStep[i];
      }
    }
  }

  /** The table of a chunk that keeps its length, with the tail cleared. */
  lemma SameLengthTable(k: Sums, direct: seq<bv32>, disk: seq<bv32>, data: seq<bv8>, was: seq<bv32>, blocks: nat)
    requires blocks <= BLOCKS && |was| == BLOCKS && TableOfDupTrunc(k, direct, data, was, blocks, blocks * BLOCK)
    requires disk == ClearTail(k, was, blocks)
    ensures direct == disk
  {
    assert BlocksOf(blocks * BLOCK) == blocks;
  }

  /** hdd_int_duptrunc against hdd_int_duplicate followed by hdd_int_truncate of the copy. */
  method CompareCopies(oc: Chunk, newver: nat, length: nat, sp: bool) returns (direct: Chunk?, twoStep: Chunk?)
    requires oc.Valid() && length <= CHUNK
    modifies oc
    ensures direct != null && twoStep != null && direct.Valid() && twoStep.Valid()
    ensures direct.version == twoStep.version && direct.blocks == twoStep.blocks && direct.data == twoStep.data
    ensures direct.crc[..direct.blocks] == twoStep.crc[..direct.blocks]
    ensures direct.crc == twoStep.crc <==> EmptyTail(oc.k, old(oc.crc), old(oc.blocks), length)
    ensures direct.disk == twoStep.disk <==>
              length == old(oc.blocks) * BLOCK || EmptyTail(oc.k, old(oc.crc), old(oc.blocks), length)
  {
    var status;
    status, twoStep := Duplicate(oc, 0, newver, newver, sp);
    ghost var crc, blocks, data, disk := twoStep.crc, twoStep.blocks, twoStep.data, twoStep.disk;
    status := twoStep.Truncate(0, newver, length);
    status, direct := DupTrunc(oc, 0, newver, newver, length, sp);
    CopyAgrees(oc.k, direct.crc, direct.data, crc, data, blocks, length);
    DupTruncTables(oc.k, direct.crc, twoStep.crc, direct.data, crc, blocks, length);
    if length == blocks * BLOCK {
      SameLengthTable(oc.k, direct.crc, disk, direct.data, crc, blocks);
    }
  }

  /**
   The conditions can fail: a chunk that was created, closed and loaded again has zeros in its
   table, and a copy made in two steps keeps them where hdd_int_duptrunc does not.
   */
  method TablesCanDiffer(sp: bool) returns (direct: Chunk?, twoStep: Chunk?)
    ensures direct != null && twoStep != null && direct.crc != twoStep.crc && direct.disk != twoStep.disk
  {
    Crc32IsLawful();
    EmptyBlockCrcNotZero();
    var oc := new Chunk.Create(CRC32, 1);
    oc.IoEnd();
    var status := oc.Reload();
    assert oc.crc[1] == 0 && oc.crc[1] != oc.k.Zeros(BLOCK);
    direct, twoStep := CompareCopies(oc, 2, BLOCK, sp);
  }
}
