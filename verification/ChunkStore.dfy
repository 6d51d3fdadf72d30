/**
 A chunk of version 1.1: its file, its table of block checksums in memory and on disk, its block
 count and its one-block cache. Every operation is specified on the flat zero-extended contents;
 sparsification, gap filling and the cache are invisible in the contracts.
 */
module ChunkStore {
  import opened Crc32
  import opened Checksums
  import opened ChunkData

  datatype Status =
    | Done
    | WrongVersion
    | BnumTooBig
    | WrongSize
    | WrongOffset
    | CrcError
    | Einval
    | NoChunk
    | ChunkExist

  const SECTOR: nat := 512

  /** The bytes outside [s, e) of a buffer placed at off are zero. */
  ghost predicate Covers(buf: seq<bv8>, off: nat, s: nat, e: nat) {
    && off <= s <= e <= off + |buf|
    && AllZero(buf[..s - off])
    && AllZero(buf[e - off..])
  }

  /**
   The non-zero part of a buffer placed at off, widened to 512-byte bounds and clipped to the
   buffer; empty at off when there is none.
   */
  method SparseRange(buf: seq<bv8>, off: nat) returns (s: nat, e: nat)
    ensures Covers(buf, off, s, e)
    ensures s == e <==> AllZero(buf)
    ensures s == e ==> s == off
    ensures s % SECTOR == 0 || s == off
    ensures e % SECTOR == 0 || e == off + |buf| || s == e
  {
    var p, q := 0, |buf|;
    while p < q && buf[p] == 0
      invariant 0 <= p <= |buf|
      invariant AllZero(buf[..p])
    {
      assert buf[..p + 1] == buf[..p] + [buf[p]];
      p := p + 1;
    }
    if p == q {
      assert buf[..p] == buf;
      s, e := off, off;
    } else {
      while p < q && buf[q - 1] == 0
        invariant p < q <= |buf|
        invariant AllZero(buf[q..])
      {
        assert buf[q - 1..] == [buf[q - 1]] + buf[q..];
        q := q - 1;
      }
      s := (p + off) / SECTOR * SECTOR;
      e := (q + off + (SECTOR - 1)) / SECTOR * SECTOR;
      if s < off {
        s := off;
      }
      if e > off + |buf| {
        e := off + |buf|;
      }
      WidenCovers(buf, off, p, q, s, e);
    }
  }

  lemma WidenCovers(buf: seq<bv8>, off: nat, p: nat, q: nat, s: nat, e: nat)
    requires p < q <= |buf| && buf[p] != 0
    requires AllZero(buf[..p]) && AllZero(buf[q..])
    requires off <= s <= p + off && q + off <= e <= off + |buf|
    ensures Covers(buf, off, s, e) && s < e && !AllZero(buf)
  {
    var head, tail := buf[..s - off], buf[e - off..];
    forall i | 0 <= i < |head| ensures head[i] == 0 {
      assert buf[..p][i] == 0;
    }
    forall i | 0 <= i < |tail| ensures tail[i] == 0 {
      assert buf[q..][e - off - q + i] == 0;
    }
  }

  ghost predicate TableTail(k: Sums, t: seq<bv32>, n: nat) {
    forall i :: n <= i < |t| ==> t[i] == 0 || t[i] == k.Zeros(BLOCK)
  }

  /** File length, table tail and cache of a chunk. */
  ghost predicate ShapeOf(k: Sums, blocks: nat, data: seq<bv8>, crc: seq<bv32>, block: seq<bv8>, blockno: nat) {
    && blocks <= BLOCKS && |data| == blocks * BLOCK
    && |crc| == BLOCKS && |block| == BLOCK
    && TableTail(k, crc, blocks)
    && (blockno == NOBLOCK || (blockno < blocks && block == Block(data, blockno)))
  }

  class Chunk {
    const k: Sums
    var version: nat
    var blocks: nat            // blocks in the file
    var data: seq<bv8>         // the file after its header and checksum table
    var disk: seq<bv32>        // the checksum table in the file
    var crc: seq<bv32>         // the checksum table in memory
    var crcchanged: bool       // the table in memory is newer than the one in the file
    var block: seq<bv8>        // the cached block
    var blockno: nat           // its number, or NOBLOCK

    function Empty(): bv32 {
      k.Zeros(BLOCK)
    }

    /** Entries past the last block are 0 or the checksum of an empty block. */
    ghost predicate TailOk(t: seq<bv32>, n: nat) {
      TableTail(k, t, n)
    }

    /** Holds whatever the disk did to the data. */
    ghost predicate Shape()
      reads this
    {
      && k.Lawful()
      && ShapeOf(k, blocks, data, crc, block, blockno)
      && |disk| == BLOCKS
      && (!crcchanged ==> TailOk(disk, blocks) && disk[..blocks] == crc[..blocks])
    }

    ghost predicate Intact()
      reads this
      requires |crc| == BLOCKS && blocks <= BLOCKS
    {
      Agrees(k, data, crc, blocks)
    }

    ghost predicate Valid()
      reads this
    {
      Shape() && Intact()
    }

    /** When hdd_write refuses, and why. */
    function WriteStatus(ver: nat, b: nat, off: nat, buf: seq<bv8>, sum: bv32): Status
      reads this
      requires |crc| == BLOCKS
    {
      if version != ver && ver > 0 then WrongVersion
      else if b >= BLOCKS then BnumTooBig
      else if |buf| > BLOCK then WrongSize
      else if off >= BLOCK || off + |buf| > BLOCK then WrongOffset
      else if sum != k.crc(buf) then CrcError
      else if b < blocks && |buf| < BLOCK && crc[b] != k.crc(Block(data, b)) then CrcError
      else Done
    }

    /** Marks blocks up to b as present and empty. */
    method FillGap(b: nat)
      requires |crc| == BLOCKS && b < BLOCKS
      modifies this`crc, this`blocks
      ensures |crc| == BLOCKS
      ensures blocks == if b >= old(blocks) then b + 1 else old(blocks)
      ensures forall i :: 0 <= i < BLOCKS ==>
                crc[i] == if old(blocks) <= i < b then Empty() else old(crc)[i]
    {
      if b >= blocks {
        var i := blocks;
        while i < b
          invariant blocks == old(blocks) <= i <= b
          invariant |crc| == BLOCKS
          invariant forall j :: 0 <= j < BLOCKS ==>
                      crc[j] == if blocks <= j < i then Empty() else old(crc)[j]
        {
          crc := crc[i := Empty()];
          i := i + 1;
        }
        blocks := b + 1;
      }
    }

    /** A block written in full: no read, no check of the old contents. */
    method WriteWhole(b: nat, buf: seq<bv8>, sum: bv32)
      requires Shape() && b < BLOCKS && |buf| == BLOCK && sum == k.crc(buf)
      modifies this
      ensures Shape()
      ensures version == old(version) && disk == old(disk)
      ensures blocks == if b >= old(blocks) then b + 1 else old(blocks)
      ensures data == Overlay(old(data), blocks * BLOCK, b * BLOCK, buf)
      ensures TableAfterWrite(k, crc, data, old(crc), old(blocks), b)
    {
      FillGap(b);
      WholeBlock(data, blocks * BLOCK, b, buf);
      data := Pwrite(data, b * BLOCK, buf);
      crc := crc[b := sum];
      crcchanged := true;
      block := buf;
      blockno := b;
    }

    /** Makes the cache hold block b of the file. */
    method LoadBlock(b: nat)
      requires Shape() && b < blocks
      modifies this`block, this`blockno
      ensures Shape() && blockno == b && block == Block(data, b)
    {
      if blockno != b {
        BlockOfFile(data, b);
        block := Pread(data, b * BLOCK, BLOCK);
        blockno := b;
      }
    }

    /** The checksum of the cached block, put together from three pieces. */
    method PieceSums(off: nat, size: nat) returns (pre: bv32, mid: bv32, post: bv32, whole: bv32)
      requires Shape() && off + size <= BLOCK
      ensures pre == k.crc(block[..off]) && mid == k.crc(block[off..off + size])
      ensures post == k.crc(block[off + size..])
      ensures whole == k.crc(block)
    {
      pre := k.crc(block[..off]);
      mid := k.crc(block[off..off + size]);
      post := k.crc(block[off + size..]);
      whole := Assemble(k, off, size, BLOCK, pre, mid, post);
      AssembleLaw(k, block[..off], block[off..off + size], block[off + size..]);
      assert block[..off] + block[off..off + size] + block[off + size..] == block;
    }

    /** The checksum of a block whose middle becomes buf, from the checksums around it. */
    method PatchedSum(off: nat, buf: seq<bv8>, pre: bv32, post: bv32, ghost a: seq<bv8>, ghost z: seq<bv8>)
      returns (sum: bv32)
      requires k.Lawful()
      requires |a| == off && |a| + |buf| + |z| == BLOCK
      requires pre == k.crc(a) && post == k.crc(z)
      ensures sum == k.crc(a + buf + z)
    {
      if |buf| > 0 {
        AssembleLaw(k, a, buf, z);
        sum := Assemble(k, off, |buf|, BLOCK, pre, k.crc(buf), post);
      } else {
        AssembleEmptyLaw(k, a, z);
        assert a + buf + z == a + z;
        sum := AssembleEmpty(k, off, BLOCK, pre, post);
      }
    }

    /** Lays buf over the cached block b, in the cache, in the file and in the table. */
    method PatchCached(b: nat, off: nat, buf: seq<bv8>, pre: bv32, post: bv32)
      requires Shape() && b < blocks && blockno == b && off + |buf| <= BLOCK
      requires pre == k.crc(block[..off]) && post == k.crc(block[off + |buf|..])
      modifies this
      ensures Shape()
      ensures version == old(version) && disk == old(disk) && blocks == old(blocks)
      ensures data == Overlay(old(data), blocks * BLOCK, b * BLOCK + off, buf)
      ensures TableAfterWrite(k, crc, data, old(crc), old(blocks), b)
    {
      OverlayBlocks(data, blocks * BLOCK, b, off, buf, b);
      PwriteInside(data, b * BLOCK + off, buf);
      var head, rest := block[..off], block[off + |buf|..];
      var sum := PatchedSum(off, buf, pre, post, head, rest);
      block := head + buf + rest;
      data := Pwrite(data, b * BLOCK + off, buf);
      crc := crc[b := sum];
      crcchanged := true;
    }

    /** Part of an existing block: the old contents are checked before they are overlaid. */
    method WriteExisting(b: nat, off: nat, buf: seq<bv8>) returns (ok: bool)
      requires Shape() && b < blocks && off + |buf| <= BLOCK
      modifies this
      ensures Shape()
      ensures version == old(version) && disk == old(disk) && blocks == old(blocks)
      ensures ok == old(crc[b] == k.crc(Block(data, b)))
      ensures !ok ==> data == old(data) && crc == old(crc) && crcchanged == old(crcchanged)
      ensures ok ==> data == Overlay(old(data), blocks * BLOCK, b * BLOCK + off, buf)
      ensures ok ==> TableAfterWrite(k, crc, data, old(crc), old(blocks), b)
    {
      LoadBlock(b);
      var pre, mid, post, whole := PieceSums(off, |buf|);
      ok := crc[b] == whole;
      if ok {
        PatchCached(b, off, buf, pre, post);
      }
    }

    /** A zeroed block with buf in it, and its checksum. */
    method PatchZeros(off: nat, buf: seq<bv8>) returns (blk: seq<bv8>, sum: bv32)
      requires k.Lawful()
      requires off + |buf| <= BLOCK
      ensures blk == ZeroBytes(off) + buf + ZeroBytes(BLOCK - (off + |buf|))
      ensures sum == k.crc(blk)
    {
      ghost var a, z := ZeroBytes(off), ZeroBytes(BLOCK - (off + |buf|));
      k.ZerosLaw(off);
      k.ZerosLaw(BLOCK - (off + |buf|));
      sum := PatchedSum(off, buf, k.Zeros(off), k.Zeros(BLOCK - (off + |buf|)), a, z);
      blk := ZeroBytes(BLOCK);
      assert blk[..off] == a && blk[off + |buf|..] == z;
      blk := blk[..off] + buf + blk[off + |buf|..];
    }

    /** A new block, of which only buf is written; the file is then extended to the block's end. */
    method WriteNew(b: nat, off: nat, buf: seq<bv8>)
      requires Shape() && blocks <= b < BLOCKS
      requires off < BLOCK && off + |buf| <= BLOCK && |buf| < BLOCK
      modifies this
      ensures Shape()
      ensures version == old(version) && disk == old(disk) && blocks == b + 1
      ensures data == Overlay(old(data), blocks * BLOCK, b * BLOCK + off, buf)
      ensures TableAfterWrite(k, crc, data, old(crc), old(blocks), b)
    {
      NewBlock(data, b, off, buf);
      FillGap(b);
      var blk, sum := PatchZeros(off, buf);
      block := blk;
      blockno := b;
      data := Pwrite(data, b * BLOCK + off, buf);
      crc := crc[b := sum];
      crcchanged := true;
      if off + |buf| < BLOCK {
        data := Ftruncate(data, (b + 1) * BLOCK);
      }
    }

    /**
     Trims the zeros off a buffer for a new block, after checking the whole buffer's checksum
     through its pieces. Without trimming the checksum is taken directly.
     */
    method TrimAndCheck(off: nat, buf: seq<bv8>, sum: bv32) returns (ok: bool, off': nat, buf': seq<bv8>)
      requires k.Lawful()
      ensures ok == (sum == k.crc(buf))
      ensures off <= off' && off' + |buf'| <= off + |buf|
      ensures |buf'| == 0 ==> off' == off
      ensures Covers(buf, off, off', off' + |buf'|) && buf' == buf[off' - off..off' - off + |buf'|]
    {
      var s, e := SparseRange(buf, off);
      off', buf' := off, buf;
      if s != off || e != off + |buf| {
        var o, n := s - off, e - s;
        var whole := k.Zeros(|buf|);
        if n == 0 {
          k.ZerosLaw(|buf|);
          assert ZeroBytes(|buf|) == buf;
        } else {
          var pre, post := k.Zeros(o), k.Zeros(|buf| - (o + n));
          whole := Assemble(k, o, n, |buf|, pre, k.crc(buf[o..o + n]), post);
          k.ZerosLaw(o);
          k.ZerosLaw(|buf| - (o + n));
          AssembleLaw(k, buf[..o], buf[o..o + n], buf[o + n..]);
          assert ZeroBytes(o) == buf[..o] && ZeroBytes(|buf| - (o + n)) == buf[o + n..];
          assert buf[..o] + buf[o..o + n] + buf[o + n..] == buf;
        }
        ok := whole == sum;
        off', buf' := s, buf[o..o + n];
      } else {
        ok := sum == k.crc(buf);
      }
    }

    /** Writes a new block of which only the non-zero part reaches the disk. */
    method StoreSparse(b: nat, buf: seq<bv8>, off: nat, sum: bv32) returns (ok: bool)
      requires Shape() && blocks <= b < BLOCKS && off < BLOCK && off + |buf| <= BLOCK
      modifies this
      ensures Shape()
      ensures version == old(version) && disk == old(disk)
      ensures ok == (sum == k.crc(buf))
      ensures !ok ==> data == old(data) && blocks == old(blocks) && crc == old(crc) && crcchanged == old(crcchanged)
      ensures ok ==> blocks == b + 1
      ensures ok ==> data == Overlay(old(data), blocks * BLOCK, b * BLOCK + off, buf)
      ensures ok ==> TableAfterWrite(k, crc, data, old(crc), old(blocks), b)
    {
      var off', buf';
      ok, off', buf' := TrimAndCheck(off, buf, sum);
      if ok {
        OverlayTrim(data, (b + 1) * BLOCK, b * BLOCK + off, buf, off' - off, off' - off + |buf'|);
        if off' == 0 && |buf'| == BLOCK {
          assert buf' == buf;
          WriteWhole(b, buf', sum);
        } else {
          WriteNew(b, off', buf');
        }
      }
    }

    /** Writes a buffer whose bounds were checked. */
    method Store(b: nat, buf: seq<bv8>, off: nat, sum: bv32, sparsify: bool) returns (ok: bool)
      requires Shape() && b < BLOCKS && off < BLOCK && off + |buf| <= BLOCK
      modifies this
      ensures Shape()
      ensures version == old(version) && disk == old(disk)
      ensures ok == old(sum == k.crc(buf) && (b < blocks && |buf| < BLOCK ==> crc[b] == k.crc(Block(data, b))))
      ensures !ok ==> data == old(data) && blocks == old(blocks) && crc == old(crc) && crcchanged == old(crcchanged)
      ensures ok ==> blocks == if b >= old(blocks) then b + 1 else old(blocks)
      ensures ok ==> data == Overlay(old(data), blocks * BLOCK, b * BLOCK + off, buf)
      ensures ok ==> TableAfterWrite(k, crc, data, old(crc), old(blocks), b)
    {
      if b >= blocks && sparsify {
        ok := StoreSparse(b, buf, off, sum);
      } else {
        ok := sum == k.crc(buf);
        if ok {
          if off == 0 && |buf| == BLOCK {
            WriteWhole(b, buf, sum);
          } else if b < blocks {
            ok := WriteExisting(b, off, buf);
          } else {
            WriteNew(b, off, buf);
          }
        }
      }
    }

    /** hdd_write. */
    method Write(ver: nat, b: nat, buf: seq<bv8>, off: nat, sum: bv32, sparsify: bool) returns (status: Status)
      requires Shape()
      modifies this
      ensures Shape()
      ensures version == old(version) && disk == old(disk)
      ensures status == old(WriteStatus(ver, b, off, buf, sum))
      ensures status != Done ==>
                data == old(data) && blocks == old(blocks) && crc == old(crc) && crcchanged == old(crcchanged)
      ensures status == Done ==>
                && blocks == (if b >= old(blocks) then b + 1 else old(blocks))
                && data == Overlay(old(data), blocks * BLOCK, b * BLOCK + off, buf)
                && TableAfterWrite(k, crc, data, old(crc), old(blocks), b)
      ensures old(Intact()) ==> Intact()
    {
      if version != ver && ver > 0 {
        return WrongVersion;
      }
      if b >= BLOCKS {
        return BnumTooBig;
      }
      if |buf| > BLOCK {
        return WrongSize;
      }
      if off >= BLOCK || off + |buf| > BLOCK {
        return WrongOffset;
      }
      var ok := Store(b, buf, off, sum, sparsify);
      if !ok {
        return CrcError;
      }
      if old(Intact()) {
        WriteAgrees(k, crc, data, blocks, old(crc), old(data), old(blocks), b, off, buf);
      }
      status := Done;
    }

    /** When hdd_read refuses, and why. */
    function ReadStatus(ver: nat, b: nat, off: nat, size: nat): Status
      reads this
      requires |crc| == BLOCKS
    {
      if version != ver && ver > 0 then WrongVersion
      else if b >= BLOCKS then BnumTooBig
      else if size > BLOCK then WrongSize
      else if off >= BLOCK || off + size > BLOCK then WrongOffset
      else if b < blocks && crc[b] != k.crc(Block(data, b)) then CrcError
      else Done
    }

    /** hdd_read. */
    method Read(ver: nat, b: nat, off: nat, size: nat) returns (status: Status, buf: seq<bv8>, sum: bv32)
      requires Shape()
      modifies this`block, this`blockno
      ensures Shape()
      ensures status == old(ReadStatus(ver, b, off, size))
      ensures status == Done ==> buf == Block(data, b)[off..off + size] && sum == k.crc(buf)
      ensures old(Intact()) ==> Intact()
    {
      buf, sum := [], 0;
      if version != ver && ver > 0 {
        return WrongVersion, buf, sum;
      }
      if b >= BLOCKS {
        return BnumTooBig, buf, sum;
      }
      if size > BLOCK {
        return WrongSize, buf, sum;
      }
      if off >= BLOCK || off + size > BLOCK {
        return WrongOffset, buf, sum;
      }
      if b >= blocks {
        BlockPastEnd(data, b);
        buf := ZeroBytes(size);
        assert buf == Block(data, b)[off..off + size];
        k.ZerosLaw(size);
        return Done, buf, k.Zeros(size);
      }
      var whole: bv32;
      if off == 0 && size == BLOCK {
        if blockno == b {
          buf := block;
        } else {
          BlockOfFile(data, b);
          buf := Pread(data, b * BLOCK, BLOCK);
          blockno := b;
          block := buf;
        }
        sum := k.crc(buf);
        whole := sum;
      } else {
        LoadBlock(b);
        var pre, post;
        pre, sum, post, whole := PieceSums(off, size);
        buf := block[off..off + size];
      }
      assert Block(data, b)[0..BLOCK] == Block(data, b);
      if crc[b] != whole {
        return CrcError, [], 0;
      }
      status := Done;
    }

    /** hdd_io_end: the table goes to disk when it changed. */
    method IoEnd()
      requires Shape()
      modifies this`disk, this`crcchanged
      ensures Shape() && !crcchanged
      ensures disk == if old(crcchanged) then crc else old(disk)
      ensures old(Intact()) ==> Intact()
    {
      if crcchanged {
        disk := crc;
        crcchanged := false;
      }
    }

    /** chunk_readcrc: the table comes from disk, unless an entry past the end is out of place. */
    method ReadCrc() returns (status: Status)
      requires |disk| == BLOCKS && blocks <= BLOCKS
      modifies this`crc
      ensures status == if TailOk(disk, blocks) then Done else CrcError
      ensures crc == if status == Done then disk else old(crc)
    {
      var i := blocks;
      while i < BLOCKS
        invariant blocks <= i <= BLOCKS
        invariant forall j :: blocks <= j < i ==> disk[j] == 0 || disk[j] == Empty()
      {
        if disk[i] != Empty() && disk[i] != 0 {
          return CrcError;
        }
        i := i + 1;
      }
      crc := disk;
      return Done;
    }

    /** The caches are dropped and the table is read back: nothing is lost and nothing is refused. */
    method Reload() returns (status: Status)
      requires Valid() && !crcchanged
      modifies this`crc, this`block, this`blockno
      ensures status == Done && Valid()
      ensures crc == disk
    {
      blockno := NOBLOCK;
      block := ZeroBytes(BLOCK);
      status := ReadCrc();
      forall b | 0 <= b < blocks ensures crc[b] == k.crc(Block(data, b)) {
        assert disk[..blocks][b] == old(crc)[..blocks][b];
      }
    }

    /** hdd_int_create: an empty file whose table on disk is all zeros. */
    constructor Create(k: Sums, version: nat)
      requires k.Lawful()
      ensures this.k == k && this.version == version
      ensures Valid() && blocks == 0 && data == [] && !crcchanged && blockno == NOBLOCK
      ensures crc == seq(BLOCKS, _ => Empty())
      ensures disk == seq(BLOCKS, _ => 0)
    {
      this.k := k;
      this.version := version;
      blocks := 0;
      data := [];
      disk := seq(BLOCKS, _ => 0);
      crc := seq(BLOCKS, _ => k.Zeros(BLOCK));
      crcchanged := false;
      block := ZeroBytes(BLOCK);
      blockno := NOBLOCK;
    }

    /** Overwrites table entries with the checksum of an empty block. */
    method FillEmpty(from: nat, to: nat)
      requires |crc| == BLOCKS && from <= to <= BLOCKS
      modifies this`crc
      ensures |crc| == BLOCKS
      ensures forall i :: 0 <= i < BLOCKS ==> crc[i] == if from <= i < to then Empty() else old(crc)[i]
    {
      var i := from;
      while i < to
        invariant from <= i <= to
        invariant |crc| == BLOCKS
        invariant forall j :: 0 <= j < BLOCKS ==> crc[j] == if from <= j < i then Empty() else old(crc)[j]
      {
        crc := crc[i := Empty()];
        i := i + 1;
      }
    }

    /** The first size bytes of block b, from the cache or from a file already cut, then zeros. */
    method CutBlock(b: nat, size: nat, file: seq<bv8>) returns (blk: seq<bv8>, sum: bv32)
      requires Shape() && b < blocks && size < BLOCK
      requires (b + 1) * BLOCK <= |file|
      requires Block(file, b) == Block(data, b)[..size] + ZeroBytes(BLOCK - size)
      ensures blk == Block(file, b) && sum == k.crc(blk)
    {
      ghost var want := Block(data, b)[..size];
      blk := block[..size];
      if blockno != b {
        BlockOfFile(file, b);
        blk := Pread(file, b * BLOCK, size);
        assert blk == Block(file, b)[..size];
      }
      assert blk == want;
      sum := k.zeroRun(k.crc(blk), BLOCK - size);
      assert k.ExtendsAt(blk, BLOCK - size);
      blk := blk + ZeroBytes(BLOCK - size);
    }

    /** Step 2 of hdd_int_truncate for a length inside a present block. */
    method ShrinkInside(length: nat)
      requires Shape() && BlocksOf(length) <= blocks && length % BLOCK > 0
      modifies this
      ensures Shape()
      ensures version == old(version) && disk == old(disk)
      ensures blocks == BlocksOf(length) && crcchanged
      ensures data == Cut(old(data), length, blocks * BLOCK)
      ensures TableAfterTruncate(k, crc, data, old(crc), old(blocks), length)
    {
      var n, bn, size := BlocksOf(length), length / BLOCK, length % BLOCK;
      TruncateTwice(data, length, n * BLOCK);
      CutBlocks(data, length, n, bn);
      var file := Ftruncate(Ftruncate(data, length), n * BLOCK);
      var blk, sum := CutBlock(bn, size, file);
      data := file;
      block, blockno := blk, bn;
      crc := crc[bn := sum];
      crcchanged := true;
      FillEmpty(bn + 1, blocks);
      blocks := n;
    }

    /** Step 2 of hdd_int_truncate for a length at a block boundary. */
    method ShrinkAligned(length: nat)
      requires Shape() && BlocksOf(length) <= blocks && length % BLOCK == 0
      modifies this
      ensures Shape()
      ensures version == old(version) && disk == old(disk)
      ensures blocks == BlocksOf(length) && crcchanged == (blocks < old(blocks) || old(crcchanged))
      ensures data == Cut(old(data), length, blocks * BLOCK)
      ensures TableAfterTruncate(k, crc, data, old(crc), old(blocks), length)
    {
      var n := BlocksOf(length);
      TruncateAligned(data, length);
      if blockno >= n {
        blockno := NOBLOCK;
      } else {
        CutBlocks(data, length, n, blockno);
      }
      data := Ftruncate(data, length);
      if n < blocks {
        FillEmpty(n, blocks);
        crcchanged := true;
      }
      blocks := n;
    }

    /** Step 2 of hdd_int_truncate for a length that needs more blocks. */
    method Expand(length: nat)
      requires Shape() && length <= CHUNK && BlocksOf(length) > blocks
      modifies this
      ensures Shape()
      ensures version == old(version) && disk == old(disk)
      ensures blocks == BlocksOf(length) && crcchanged
      ensures data == Cut(old(data), length, blocks * BLOCK)
      ensures TableAfterTruncate(k, crc, data, old(crc), old(blocks), length)
    {
      var n := BlocksOf(length);
      TruncateLonger(data, length, n * BLOCK);
      if blockno != NOBLOCK {
        CutBlocks(data, length, n, blockno);
      }
      data := Ftruncate(data, n * BLOCK);
      FillEmpty(blocks, n);
      crcchanged := true;
      blocks := n;
    }

    /** Step 2 of hdd_int_truncate. */
    method Resize(length: nat)
      requires Shape() && length <= CHUNK
      modifies this
      ensures Shape()
      ensures version == old(version) && disk == old(disk)
      ensures blocks == BlocksOf(length) && crcchanged == (length != old(blocks) * BLOCK || old(crcchanged))
      ensures data == Cut(old(data), length, blocks * BLOCK)
      ensures TableAfterTruncate(k, crc, data, old(crc), old(blocks), length)
    {
      if BlocksOf(length) > blocks {
        Expand(length);
      } else if length % BLOCK > 0 {
        ShrinkInside(length);
      } else {
        ShrinkAligned(length);
      }
    }

    /** hdd_int_truncate. */
    method Truncate(ver: nat, newver: nat, length: nat) returns (status: Status)
      requires Shape()
      modifies this
      ensures Shape()
      ensures status == if length > CHUNK then WrongSize
                        else if old(version) != ver && ver > 0 then WrongVersion else Done
      ensures status != Done ==>
                && data == old(data) && blocks == old(blocks) && crc == old(crc) && disk == old(disk)
                && version == old(version) && crcchanged == old(crcchanged)
      ensures status == Done ==>
                && version == newver && blocks == BlocksOf(length) && !crcchanged
                && disk == (if length == old(blocks) * BLOCK && !old(crcchanged) then old(disk) else crc)
                && data == Cut(old(data), length, blocks * BLOCK)
                && TableAfterTruncate(k, crc, data, old(crc), old(blocks), length)
      ensures old(Intact()) ==> Intact()
    {
      if length > CHUNK {
        return WrongSize;
      }
      if version != ver && ver > 0 {
        return WrongVersion;
      }
      version := newver;
      Resize(length);
      if old(Intact()) {
        TruncateAgrees(k, crc, data, old(crc), old(data), old(blocks), length);
      }
      IoEnd();
      status := Done;
    }

    /** A new chunk record filled by a copy, with its table already in the file. */
    constructor Copied(k: Sums, version: nat, blocks: nat, data: seq<bv8>, crc: seq<bv32>, disk: seq<bv32>,
                       block: seq<bv8>, blockno: nat)
      requires k.Lawful() && ShapeOf(k, blocks, data, crc, block, blockno)
      requires |disk| == BLOCKS && TableTail(k, disk, blocks) && disk[..blocks] == crc[..blocks]
      ensures Shape() && !crcchanged
      ensures this.k == k && this.version == version && this.blocks == blocks
      ensures this.data == data && this.crc == crc && this.disk == disk
      ensures this.block == block && this.blockno == blockno
    {
      this.k := k;
      this.version, this.blocks := version, blocks;
      this.data, this.crc, this.disk := data, crc, disk;
      this.block, this.blockno := block, blockno;
      crcchanged := false;
    }
  }
}
