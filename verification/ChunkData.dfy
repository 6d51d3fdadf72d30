/**
 The data region of a chunk file as bytes: what the file calls do to it, and its abstract view
 as a zero-extended array of blocks.
 */
module ChunkData {
  import opened Crc32
  import opened Checksums

  const BLOCK: nat := 0x10000       // MFSBLOCKSIZE
  const BLOCKS: nat := 0x400        // MFSBLOCKSINCHUNK
  const CHUNK: nat := 0x4000000     // MFSCHUNKSIZE
  const NOBLOCK: nat := 0xFFFF      // blockno of an invalid cache

  /** The zero-extended view: byte i of a file of any length. */
  function ByteAt(f: seq<bv8>, i: nat): bv8 {
    if i < |f| then f[i] else 0
  }

  /** Block b of the zero-extended view. */
  function Block(f: seq<bv8>, b: nat): (r: seq<bv8>)
    ensures |r| == BLOCK
    ensures forall i :: 0 <= i < BLOCK ==> r[i] == ByteAt(f, b * BLOCK + i)
  {
    seq(BLOCK, i requires 0 <= i < BLOCK => ByteAt(f, b * BLOCK + i))
  }

  function Ftruncate(f: seq<bv8>, n: nat): (g: seq<bv8>)
    ensures |g| == n
    ensures forall i :: 0 <= i < n ==> g[i] == ByteAt(f, i)
  {
    if n <= |f| then f[..n] else f + ZeroBytes(n - |f|)
  }

  /** A write past the end leaves a gap of zeros; a write of nothing changes nothing. */
  function Pwrite(f: seq<bv8>, pos: nat, buf: seq<bv8>): (g: seq<bv8>)
    ensures |buf| == 0 ==> g == f
    ensures |buf| > 0 ==> |g| == if |f| > pos + |buf| then |f| else pos + |buf|
    ensures |buf| > 0 ==> forall i :: 0 <= i < |g| ==>
              g[i] == if pos <= i < pos + |buf| then buf[i - pos] else ByteAt(f, i)
  {
    if |buf| == 0 then f
    else if pos + |buf| <= |f| then f[..pos] + buf + f[pos + |buf|..]
    else Ftruncate(f, pos) + buf
  }

  /** A read inside the file. */
  function Pread(f: seq<bv8>, pos: nat, n: nat): (g: seq<bv8>)
    requires pos + n <= |f|
    ensures |g| == n
    ensures forall i :: 0 <= i < n ==> g[i] == f[pos + i]
  {
    f[pos..pos + n]
  }

  /** The flat model of a write: f zero-extended or cut to n bytes, with buf laid over it at pos. */
  function Overlay(f: seq<bv8>, n: nat, pos: nat, buf: seq<bv8>): (g: seq<bv8>)
    requires pos + |buf| <= n
    ensures |g| == n
    ensures forall i :: 0 <= i < n ==> g[i] == if pos <= i < pos + |buf| then buf[i - pos] else ByteAt(f, i)
  {
    seq(n, i requires 0 <= i < n => if pos <= i < pos + |buf| then buf[i - pos] else ByteAt(f, i))
  }

  /** The flat model of a truncation to length len: n bytes, zero from len on. */
  function Cut(f: seq<bv8>, len: nat, n: nat): (g: seq<bv8>)
    ensures |g| == n
    ensures forall i :: 0 <= i < n ==> g[i] == if i < len then ByteAt(f, i) else 0
  {
    seq(n, i requires 0 <= i < n => if i < len then ByteAt(f, i) else 0)
  }

  ghost predicate AllZero(s: seq<bv8>) {
    forall i :: 0 <= i < |s| ==> s[i] == 0
  }

  lemma BlockOfFile(f: seq<bv8>, b: nat)
    requires (b + 1) * BLOCK <= |f|
    ensures Block(f, b) == f[b * BLOCK..(b + 1) * BLOCK]
  {
  }

  lemma BlockPastEnd(f: seq<bv8>, b: nat)
    requires |f| <= b * BLOCK
    ensures Block(f, b) == ZeroBytes(BLOCK)
  {
  }

  /** Only the written block changes. */
  lemma OverlayBlocks(f: seq<bv8>, n: nat, b: nat, off: nat, buf: seq<bv8>, j: nat)
    requires off + |buf| <= BLOCK
    requires b * BLOCK + off + |buf| <= n
    requires |f| <= n
    ensures j != b ==> Block(Overlay(f, n, b * BLOCK + off, buf), j) == Block(f, j)
    ensures Block(Overlay(f, n, b * BLOCK + off, buf), b)
         == Block(f, b)[..off] + buf + Block(f, b)[off + |buf|..]
  {
  }

  /** On a new block, zeros at both ends of the buffer need not be written. */
  lemma OverlayTrim(f: seq<bv8>, n: nat, pos: nat, buf: seq<bv8>, s: nat, e: nat)
    requires pos + |buf| <= n
    requires s <= e <= |buf|
    requires |f| <= pos
    requires AllZero(buf[..s]) && AllZero(buf[e..])
    ensures Overlay(f, n, pos + s, buf[s..e]) == Overlay(f, n, pos, buf)
  {
    var g, h := Overlay(f, n, pos + s, buf[s..e]), Overlay(f, n, pos, buf);
    forall i | 0 <= i < n ensures g[i] == h[i] {
      if pos <= i < pos + |buf| {
        var j := i - pos;
        if j < s {
          assert buf[..s][j] == 0;
        } else if j >= e {
          assert buf[e..][j - e] == 0;
        } else {
          assert buf[s..e][j - s] == buf[j];
        }
      }
    }
  }

  /** A write inside the file is an overlay. */
  lemma PwriteInside(f: seq<bv8>, pos: nat, buf: seq<bv8>)
    requires pos + |buf| <= |f|
    ensures Pwrite(f, pos, buf) == Overlay(f, |f|, pos, buf)
  {
  }

  /** A write into a new block, followed by an extension to n where it stops short, is an overlay. */
  lemma PwriteExtends(f: seq<bv8>, n: nat, pos: nat, buf: seq<bv8>)
    requires |f| <= pos && pos + |buf| <= n
    requires pos < n
    ensures (if pos + |buf| < n then Ftruncate(Pwrite(f, pos, buf), n) else Pwrite(f, pos, buf))
         == Overlay(f, n, pos, buf)
  {
  }

  /** What a write into the new block b leaves in the file and in the block. */
  lemma NewBlock(f: seq<bv8>, b: nat, off: nat, buf: seq<bv8>)
    requires |f| <= b * BLOCK
    requires off < BLOCK && off + |buf| <= BLOCK
    ensures var pos, n := b * BLOCK + off, (b + 1) * BLOCK;
            && Overlay(f, n, pos, buf) == (if off + |buf| < BLOCK then Ftruncate(Pwrite(f, pos, buf), n) else Pwrite(f, pos, buf))
            && Block(Overlay(f, n, pos, buf), b) == ZeroBytes(off) + buf + ZeroBytes(BLOCK - (off + |buf|))
  {
    PwriteExtends(f, (b + 1) * BLOCK, b * BLOCK + off, buf);
    BlockPastEnd(f, b);
    OverlayBlocks(f, (b + 1) * BLOCK, b, off, buf, b);
    var zero := ZeroBytes(BLOCK);
    assert zero[..off] == ZeroBytes(off) && zero[off + |buf|..] == ZeroBytes(BLOCK - (off + |buf|));
  }

  /** What a write of the whole block b leaves in the file and in the block. */
  lemma WholeBlock(f: seq<bv8>, n: nat, b: nat, buf: seq<bv8>)
    requires |buf| == BLOCK && |f| % BLOCK == 0
    requires n == if |f| > (b + 1) * BLOCK then |f| else (b + 1) * BLOCK
    ensures Pwrite(f, b * BLOCK, buf) == Overlay(f, n, b * BLOCK, buf)
    ensures Block(Overlay(f, n, b * BLOCK, buf), b) == buf
  {
    OverlayBlocks(f, n, b, 0, buf, b);
    assert Block(f, b)[..0] + buf + Block(f, b)[BLOCK..] == buf;
  }

  /** A block laid over in full. */
  lemma WholeOverlay(f: seq<bv8>, n: nat, q: nat, buf: seq<bv8>)
    requires |buf| == BLOCK && q * BLOCK + BLOCK <= n && |f| <= n
    ensures forall j: nat :: Block(Overlay(f, n, q * BLOCK + 0, buf), j) == if j == q then buf else Block(f, j)
  {
    forall j: nat ensures Block(Overlay(f, n, q * BLOCK + 0, buf), j) == if j == q then buf else Block(f, j) {
      OverlayBlocks(f, n, q, 0, buf, j);
      assert Block(f, q)[..0] + buf + Block(f, q)[BLOCK..] == buf;
    }
  }

  // ----- Checksums of pieces -----

  /** The branch structure that assembles a checksum from the pieces before, in and after a range. */
  function Assemble(k: Sums, off: nat, size: nat, total: nat, pre: bv32, mid: bv32, post: bv32): bv32
    requires off + size <= total
  {
    if off == 0 then k.combine(mid, post, total - (off + size))
    else
      var c := k.combine(pre, mid, size);
      if off + size < total then k.combine(c, post, total - (off + size)) else c
  }

  lemma AssembleLaw(k: Sums, a: seq<bv8>, b: seq<bv8>, c: seq<bv8>)
    requires k.Lawful()
    ensures Assemble(k, |a|, |b|, |a| + |b| + |c|, k.crc(a), k.crc(b), k.crc(c)) == k.crc(a + b + c)
  {
    assert k.CombinesAt(a, b);
    assert k.CombinesAt(a + b, c);
    assert k.CombinesAt(b, c);
    if |a| == 0 {
      assert a + b + c == b + c;
    }
    if |c| == 0 {
      assert a + b + c == a + b;
    }
  }

  /** The same for a range that turned out to be empty. */
  function AssembleEmpty(k: Sums, off: nat, total: nat, pre: bv32, post: bv32): bv32
    requires off <= total
  {
    if off == 0 then post
    else if off < total then k.combine(pre, post, total - off)
    else pre
  }

  lemma AssembleEmptyLaw(k: Sums, a: seq<bv8>, c: seq<bv8>)
    requires k.Lawful()
    ensures AssembleEmpty(k, |a|, |a| + |c|, k.crc(a), k.crc(c)) == k.crc(a + c)
  {
    assert k.CombinesAt(a, c);
    if |a| == 0 {
      assert a + c == c;
    }
    if |c| == 0 {
      assert a + c == a;
    }
  }

  // ----- The checksum table -----

  /** Every block of the file agrees with its table entry. */
  ghost predicate Agrees(k: Sums, data: seq<bv8>, crc: seq<bv32>, n: nat)
    requires n <= |crc|
  {
    forall b :: 0 <= b < n ==> crc[b] == k.crc(Block(data, b))
  }

  /** The table after block b was written: new gap entries, and the entry of the block itself. */
  ghost predicate TableAfterWrite(k: Sums, crc: seq<bv32>, data: seq<bv8>, was: seq<bv32>, wasBlocks: nat, b: nat)
  {
    && |crc| == |was| == BLOCKS
    && forall i :: 0 <= i < BLOCKS ==>
         crc[i] == if i == b then k.crc(Block(data, b)) else if wasBlocks <= i < b then k.Zeros(BLOCK) else was[i]
  }

  /** A write keeps every block in agreement with its table entry. */
  lemma WriteAgrees(k: Sums, crc: seq<bv32>, data: seq<bv8>, n: nat,
                    was: seq<bv32>, wasData: seq<bv8>, wasBlocks: nat, b: nat, off: nat, buf: seq<bv8>)
    requires k.Lawful()
    requires b < BLOCKS && off + |buf| <= BLOCK
    requires wasBlocks <= BLOCKS && |wasData| == wasBlocks * BLOCK
    requires n == if b >= wasBlocks then b + 1 else wasBlocks
    requires data == Overlay(wasData, n * BLOCK, b * BLOCK + off, buf)
    requires TableAfterWrite(k, crc, data, was, wasBlocks, b)
    requires Agrees(k, wasData, was, wasBlocks)
    ensures Agrees(k, data, crc, n)
  {
    forall i | 0 <= i < n ensures crc[i] == k.crc(Block(data, i)) {
      OverlayBlocks(wasData, n * BLOCK, b, off, buf, i);
      if i != b && i >= wasBlocks {
        BlockPastEnd(wasData, i);
        k.ZerosLaw(BLOCK);
      }
    }
  }

  /** The number of blocks of a chunk of the given length. */
  function BlocksOf(length: nat): nat {
    (length + (BLOCK - 1)) / BLOCK
  }

  /** The table after a truncation to length: a shortened last block gets a new entry. */
  ghost predicate TableAfterTruncate(
    k: Sums, crc: seq<bv32>, data: seq<bv8>, was: seq<bv32>, wasBlocks: nat, length: nat)
  {
    && |crc| == |was| == BLOCKS
    && forall i :: 0 <= i < BLOCKS ==>
         var n := BlocksOf(length);
         crc[i] ==
           if i < n && i < wasBlocks then
             if length % BLOCK != 0 && i == n - 1 then k.crc(Block(data, i)) else was[i]
           else if i < n || i < wasBlocks then k.Zeros(BLOCK)
           else was[i]
  }

  lemma CutBlocks(f: seq<bv8>, length: nat, n: nat, b: nat)
    requires b < n
    ensures (b + 1) * BLOCK <= length ==> Block(Cut(f, length, n * BLOCK), b) == Block(f, b)
    ensures |f| <= b * BLOCK ==> Block(Cut(f, length, n * BLOCK), b) == ZeroBytes(BLOCK)
    ensures b * BLOCK <= length < (b + 1) * BLOCK ==>
              Block(Cut(f, length, n * BLOCK), b) == Block(f, b)[..length - b * BLOCK] + ZeroBytes((b + 1) * BLOCK - length)
  {
  }

  lemma TruncateTwice(f: seq<bv8>, length: nat, n: nat)
    requires length <= n
    ensures Ftruncate(Ftruncate(f, length), n) == Cut(f, length, n)
  {
  }

  lemma TruncateAligned(f: seq<bv8>, n: nat)
    ensures Ftruncate(f, n) == Cut(f, n, n)
  {
  }

  lemma TruncateLonger(f: seq<bv8>, length: nat, n: nat)
    requires |f| <= length <= n
    ensures Ftruncate(f, n) == Cut(f, length, n)
  {
  }

  /** A truncation keeps every block in agreement with its table entry. */
  lemma TruncateAgrees(k: Sums, crc: seq<bv32>, data: seq<bv8>,
                       was: seq<bv32>, wasData: seq<bv8>, wasBlocks: nat, length: nat)
    requires k.Lawful()
    requires length <= CHUNK
    requires wasBlocks <= BLOCKS && |wasData| == wasBlocks * BLOCK
    requires data == Cut(wasData, length, BlocksOf(length) * BLOCK)
    requires TableAfterTruncate(k, crc, data, was, wasBlocks, length)
    requires Agrees(k, wasData, was, wasBlocks)
    ensures BlocksOf(length) <= BLOCKS
    ensures Agrees(k, data, crc, BlocksOf(length))
  {
    var n := BlocksOf(length);
    forall i | 0 <= i < n ensures crc[i] == k.crc(Block(data, i)) {
      CutBlocks(wasData, length, n, i);
      if i >= wasBlocks {
        k.ZerosLaw(BLOCK);
      }
    }
  }
}
