/**
 hdd_int_split: the missing parts of an erasure-coded chunk, built from the whole chunk on the same
 server in one pass over its blocks.
 */
module ChunkSplit {
  import opened Crc32
  import opened Checksums
  import opened ChunkData
  import opened ChunkStore
  import opened ChunkCopy
  import opened Erasure
  import opened Options

  /** A part being written: its file may still end before its last block. */
  datatype Draft = Draft(blocks: nat, data: seq<bv8>, crc: seq<bv32>, truncneeded: bool)

  /** The source: contents, table and number of blocks, and the number of data parts. */
  datatype Whole = Whole(k: Sums, data: seq<bv8>, crc: seq<bv32>, blocks: nat, parts: nat) {
    ghost predicate Valid() {
      && k.Lawful() && parts > 0
      && blocks <= BLOCKS && |data| == blocks * BLOCK && |crc| == BLOCKS
    }

    /** The table entry of source block s; blocks past the end are empty. */
    function SumAt(s: nat): bv32
      requires blocks <= |crc|
    {
      if s < blocks then crc[s] else k.Zeros(BLOCK)
    }

    function RowSums(q: nat): (r: seq<bv32>)
      requires blocks <= |crc|
      ensures |r| == parts
      ensures forall p :: 0 <= p < parts ==> r[p] == SumAt(SourceIndex(parts, p, q))
    {
      seq(parts, p requires 0 <= p < parts => SumAt(SourceIndex(parts, p, q)))
    }

    /** The table entry of block q of part p. */
    function PieceSum(p: nat, q: nat): bv32
      requires blocks <= |crc|
    {
      if p < parts then SumAt(SourceIndex(parts, p, q)) else ParityCrc(k, RowSums(q))
    }

    /** Entries made from the entries of an intact source are the checksums of the part's blocks. */
    lemma PieceSumIsCrc(p: nat, q: nat)
      requires Valid() && Agrees(k, data, crc, blocks)
      requires parts % 2 == 0
      ensures PieceSum(p, q) == k.crc(PieceBlock(data, parts, p, q))
    {
      forall s: nat ensures SumAt(s) == k.crc(Block(data, s)) {
        if s >= blocks {
          BlockPastEnd(data, s);
          k.ZerosLaw(BLOCK);
        }
      }
      if p >= parts {
        var row := Row(data, parts, q);
        assert RowSums(q) == Crcs(k, row);
        FoldCrc(k, row);
      }
    }

    /** A draft that holds the first n blocks of part p. */
    ghost predicate Drawn(d: Draft, p: nat, n: nat)
      requires blocks <= |crc|
    {
      && d.blocks == n <= BLOCKS && |d.data| <= n * BLOCK && |d.crc| == BLOCKS
      && (!d.truncneeded ==> |d.data| == n * BLOCK)
      && (forall q :: 0 <= q < n ==> Block(d.data, q) == PieceBlock(data, parts, p, q))
      && (forall q :: 0 <= q < BLOCKS ==> d.crc[q] == if q < n then PieceSum(p, q) else k.Zeros(BLOCK))
    }
  }

  // ----- Places -----

  lemma NextGroup(h: nat, n: nat)
    requires n > 0
    ensures h % n + 1 < n ==> (h + 1) / n == h / n && (h + 1) % n == h % n + 1
    ensures h % n + 1 >= n ==> (h + 1) / n == h / n + 1 && (h + 1) % n == 0
  {
    assert h == h / n * n + h % n;
    if h % n + 1 < n {
      DivMod(h / n, h % n + 1, n);
    } else {
      assert (h / n + 1) * n == h / n * n + n;
      DivMod(h / n + 1, 0, n);
    }
  }

  /** The number of blocks of part p among the first b source blocks. */
  function PlacesBelow(parts: nat, p: nat, b: nat): nat
    requires parts > 0
  {
    var part := PartOf(parts, b);
    b / 4 / parts * 4 + if p < part then 4 else if p == part then b % 4 else 0
  }

  /** The number of rows among the first b source blocks, counting one that has just begun. */
  function RowsBelow(parts: nat, b: nat): nat
    requires parts > 0
  {
    if b == 0 then 0 else (b - 1) / 4 / parts + 1
  }

  lemma PlacesStep(parts: nat, p: nat, b: nat)
    requires p < parts
    ensures PlacesBelow(parts, p, b + 1) == PlacesBelow(parts, p, b) + if p == PartOf(parts, b) then 1 else 0
    ensures p == PartOf(parts, b) ==> PlacesBelow(parts, p, b) == PlaceOf(parts, b)
  {
    NextGroup(b / 4, parts);
    assert b % 4 < 3 ==> (b + 1) / 4 == b / 4;
    assert b % 4 == 3 ==> (b + 1) / 4 == b / 4 + 1;
  }

  /** Places are compared like source blocks: by row, then by part, then within the group. */
  lemma RowOrder(parts: nat, g: nat, p: nat, r: nat, part: nat)
    requires p < parts && part < parts
    ensures g < r ==> g * parts + p < r * parts + part
    ensures g * parts + p <= r * parts + part <==> g < r || (g == r && p <= part)
  {
    if g < r {
      assert (g + 1) * parts <= r * parts;
    } else if g > r {
      assert (r + 1) * parts <= g * parts;
    }
  }

  lemma PlacesEnd(parts: nat, p: nat, b: nat, q: nat)
    requires p < parts
    ensures q < PlacesBelow(parts, p, b) <==> SourceIndex(parts, p, q) < b
  {
    var h := b / 4;
    assert h == h / parts * parts + h % parts;
    RowOrder(parts, q / 4, p, h / parts, h % parts);
    RowOrder(parts, h / parts, h % parts, q / 4, p);
  }

  lemma RowsEnd(parts: nat, p: nat, b: nat, q: nat)
    requires p < parts && q / 4 >= RowsBelow(parts, b)
    ensures SourceIndex(parts, p, q) >= b
  {
    if b > 0 {
      var h := (b - 1) / 4;
      assert h == h / parts * parts + h % parts;
      RowOrder(parts, h / parts, h % parts, q / 4, p);
    }
  }

  /** The number of blocks of part p of a chunk of the given number of blocks. */
  function PieceBlocks(parts: nat, p: nat, blocks: nat): nat
    requires parts > 0
  {
    if p < parts then PlacesBelow(parts, p, blocks) else 4 * RowsBelow(parts, blocks)
  }

  /** From there on a part is empty. */
  lemma PieceEnds(data: seq<bv8>, blocks: nat, parts: nat, p: nat, q: nat)
    requires parts > 0 && |data| == blocks * BLOCK
    requires q >= PieceBlocks(parts, p, blocks)
    ensures PieceBlock(data, parts, p, q) == ZeroBytes(BLOCK)
  {
    if p < parts {
      PlacesEnd(parts, p, blocks, q);
      BlockPastEnd(data, SourceIndex(parts, p, q));
    } else {
      var row := Row(data, parts, q);
      forall j | 0 <= j < parts ensures row[j] == ZeroBytes(BLOCK) {
        RowsEnd(parts, j, blocks, q);
        BlockPastEnd(data, SourceIndex(parts, j, q));
      }
      XorOfZeros(row);
    }
  }

  // ----- One block at a time -----

  lemma AppendedBlocks(d: seq<bv8>, g: seq<bv8>, q: nat, buf: seq<bv8>, j: nat)
    requires |buf| == BLOCK && |d| <= q * BLOCK && |g| <= (q + 1) * BLOCK
    requires Ftruncate(g, (q + 1) * BLOCK) == Overlay(d, (q + 1) * BLOCK, q * BLOCK, buf)
    ensures Block(g, j) == if j == q then buf else Block(d, j)
  {
    var n := (q + 1) * BLOCK;
    WholeOverlay(d, n, q, buf);
    SameBlocks(g, n, j);
  }

  lemma SameBlocks(g: seq<bv8>, n: nat, j: nat)
    requires |g| <= n
    ensures Block(Ftruncate(g, n), j) == Block(g, j)
  {
  }

  /** Writes block q of part p, sparsified. */
  method Append(d: Draft, q: nat, buf: seq<bv8>, sum: bv32, sp: bool, ghost w: Whole, ghost p: nat) returns (d': Draft)
    requires w.Valid() && |buf| == BLOCK && q < BLOCKS
    requires w.Drawn(d, p, q)
    requires buf == PieceBlock(w.data, w.parts, p, q) && sum == w.PieceSum(p, q)
    ensures w.Drawn(d', p, q + 1)
  {
    var g, truncneeded := AppendSparse(d.data, q * BLOCK, buf, sp);
    var n := if q >= d.blocks then q + 1 else d.blocks;
    d' := Draft(n, g, d.crc[q := sum], truncneeded);
    forall j | 0 <= j < q + 1 ensures Block(g, j) == PieceBlock(w.data, w.parts, p, j) {
      AppendedBlocks(d.data, g, q, buf, j);
    }
  }

  /** A source block kept until its row is complete, and its checksum. */
  datatype Slot = Slot(data: seq<bv8>, sum: bv32)

  /** The kept blocks of row r, of which those below b were read. */
  ghost predicate Buffered(w: Whole, slots: seq<Option<Slot>>, r: nat, b: nat)
    requires w.Valid() && b <= w.blocks
  {
    && |slots| == 4 * w.parts
    && forall i :: 0 <= i < |slots| ==>
         var s := r * w.parts * 4 + i;
         slots[i] == if s < b then Some(Slot(Block(w.data, s), w.crc[s])) else None
  }

  /** The place of a kept block is that of its part and place. */
  lemma SlotPlace(w: Whole, slots: seq<Option<Slot>>, r: nat, part: nat, bg: nat)
    requires w.Valid() && Buffered(w, slots, r, w.blocks)
    requires part < w.parts && bg < 4
    ensures bg + 4 * part < |slots|
    ensures var s := SourceIndex(w.parts, part, 4 * r + bg);
            slots[bg + 4 * part] == if s < w.blocks then Some(Slot(Block(w.data, s), w.crc[s])) else None
  {
    assert (4 * r + bg) / 4 == r && (4 * r + bg) % 4 == bg;
    assert SourceIndex(w.parts, part, 4 * r + bg) == r * w.parts * 4 + (bg + 4 * part);
  }

  /** Each operand of a parity block was kept, or is an empty block. */
  lemma Operand(w: Whole, slots: seq<Option<Slot>>, r: nat, part: nat, bg: nat, row: seq<seq<bv8>>, sums: seq<bv32>)
    requires w.Valid() && Buffered(w, slots, r, w.blocks)
    requires part < w.parts && bg < 4
    requires row == Row(w.data, w.parts, 4 * r + bg) && sums == w.RowSums(4 * r + bg)
    ensures bg + 4 * part < |slots|
    ensures StandsFor(w.k, slots[bg + 4 * part], row[part], sums[part])
  {
    SlotPlace(w, slots, r, part, bg);
    var s := SourceIndex(w.parts, part, 4 * r + bg);
    if s >= w.blocks {
      BlockPastEnd(w.data, s);
    }
  }

  lemma SwapLast(k: Sums, s: bv32, c: bv32)
    requires k.Lawful()
    ensures k.xor(k.xor(s, k.Zeros(BLOCK)), c) == k.xor(k.xor(s, c), k.Zeros(BLOCK))
  {
    var e := k.Zeros(BLOCK);
    assert k.XorAssociatesAt(s, e, c);
    assert k.XorCommutesAt(e, c);
    assert k.XorAssociatesAt(s, c, e);
  }

  /** One more operand of a parity block. */
  lemma ParityStep(k: Sums, row: seq<seq<bv8>>, sums: seq<bv32>, i: nat)
    requires k.Lawful() && i < |row| == |sums|
    requires forall b :: b in row ==> |b| == BLOCK
    ensures forall b :: b in row[..i] ==> |b| == BLOCK
    ensures forall b :: b in row[..i + 1] ==> |b| == BLOCK
    ensures row[i] in row
    ensures XorFold(row[..i + 1]) == XorBytes(XorFold(row[..i]), row[i])
    ensures ParityCrc(k, sums[..i + 1]) == k.xor(ParityCrc(k, sums[..i]), sums[i])
  {
    assert row[..i + 1] == row[..i] + [row[i]];
    XorFoldSnoc(row[..i], row[i]);
    assert sums[..i + 1][..i] == sums[..i];
    SwapLast(k, Sum(k.xor, 0, sums[..i]), sums[i]);
  }

  /** The first operand, or an empty block in its place. */
  lemma ParityFirst(k: Sums, b: seq<bv8>, c: bv32)
    requires k.Lawful() && |b| == BLOCK
    ensures XorFold([b]) == b
    ensures ParityCrc(k, [c]) == k.xor(c, k.Zeros(BLOCK))
    ensures c == k.Zeros(BLOCK) ==> ParityCrc(k, [c]) == 0
  {
    XorFoldEmpty();
    XorFoldSnoc([], b);
    assert [] + [b] == [b];
    XorWithZeros(b);
    assert [c][..0] == [];
    assert Sum(k.xor, 0, [c]) == k.xor(Sum(k.xor, 0, []), c);
  }

  lemma XorZerosRight(d: seq<bv8>)
    ensures XorBytes(d, ZeroBytes(|d|)) == d
  {
    forall i | 0 <= i < |d| ensures XorBytes(d, ZeroBytes(|d|))[i] == d[i] {
      var x := d[i];
      assert x ^ 0 == x;
    }
  }

  /** What a kept operand, or none, stands for. */
  ghost predicate StandsFor(k: Sums, o: Option<Slot>, x: seq<bv8>, c: bv32) {
    if o.Some? then o.value == Slot(x, c) else x == ZeroBytes(BLOCK) && c == k.Zeros(BLOCK)
  }

  method FirstOperand(k: Sums, o: Option<Slot>, ghost x: seq<bv8>, ghost c: bv32) returns (buf: seq<bv8>, sum: bv32)
    requires k.Lawful() && |x| == BLOCK && StandsFor(k, o, x, c)
    ensures buf == x && sum == k.xor(c, k.Zeros(BLOCK))
  {
    if o.Some? {
      buf, sum := o.value.data, k.xor(o.value.sum, k.Zeros(BLOCK));
    } else {
      buf, sum := ZeroBytes(BLOCK), 0;
    }
  }

  method NextOperand(k: Sums, o: Option<Slot>, a: seq<bv8>, s: bv32, ghost x: seq<bv8>, ghost c: bv32)
    returns (buf: seq<bv8>, sum: bv32)
    requires |a| == |x| == BLOCK && StandsFor(k, o, x, c)
    ensures buf == XorBytes(a, x) && sum == k.xor(s, c)
  {
    buf := a;
    if o.Some? {
      buf, sum := XorBytes(a, o.value.data), k.xor(s, o.value.sum);
    } else {
      XorZerosRight(a);
      sum := k.xor(s, k.Zeros(BLOCK));
    }
  }

  /** The parity of place 4 * r + bg, and its checksum from the checksums of the row. */
  method XorRow(w: Whole, slots: seq<Option<Slot>>, r: nat, bg: nat) returns (buf: seq<bv8>, sum: bv32)
    requires w.Valid() && Buffered(w, slots, r, w.blocks) && bg < 4
    ensures buf == PieceBlock(w.data, w.parts, w.parts, 4 * r + bg)
    ensures sum == w.PieceSum(w.parts, 4 * r + bg)
  {
    ghost var row, sums := Row(w.data, w.parts, 4 * r + bg), w.RowSums(4 * r + bg);
    Operand(w, slots, r, 0, bg, row, sums);
    buf, sum := FirstOperand(w.k, slots[bg], row[0], sums[0]);
    ParityFirst(w.k, row[0], sums[0]);
    assert row[..1] == [row[0]] && sums[..1] == [sums[0]];
    var part := 1;
    while part < w.parts
      invariant 1 <= part <= w.parts
      invariant forall b :: b in row[..part] ==> |b| == BLOCK
      invariant buf == XorFold(row[..part])
      invariant sum == ParityCrc(w.k, sums[..part])
    {
      Operand(w, slots, r, part, bg, row, sums);
      ParityStep(w.k, row, sums, part);
      buf, sum := NextOperand(w.k, slots[bg + 4 * part], buf, sum, row[part], sums[part]);
      part := part + 1;
    }
    assert row[..part] == row && sums[..part] == sums;
  }

  method ParityPlace(w: Whole, d: Draft, slots: seq<Option<Slot>>, r: nat, bg: nat, i: nat, sp: bool) returns (d': Draft)
    requires w.Valid() && Buffered(w, slots, r, w.blocks) && bg < 4 && i == 4 * r + bg < BLOCKS
    requires w.Drawn(d, w.parts, i)
    ensures w.Drawn(d', w.parts, i + 1)
  {
    var buf, sum := XorRow(w, slots, r, bg);
    d' := Append(d, i, buf, sum, sp, w, w.parts);
  }

  /** The four parity blocks of row r. */
  method ParityRow(w: Whole, d: Draft, slots: seq<Option<Slot>>, r: nat, sp: bool) returns (d': Draft)
    requires w.Valid() && Buffered(w, slots, r, w.blocks) && 4 * r + 4 <= BLOCKS
    requires w.Drawn(d, w.parts, 4 * r)
    ensures w.Drawn(d', w.parts, 4 * r + 4)
  {
    d' := d;
    var bg := 0;
    while bg < 4
      invariant 0 <= bg <= 4
      invariant w.Drawn(d', w.parts, 4 * r + bg)
    {
      d' := ParityPlace(w, d', slots, r, bg, 4 * r + bg, sp);
      bg := bg + 1;
    }
  }

  // ----- The whole chunk -----

  /** How many blocks of part p are written when b source blocks were seen. */
  function Written(w: Whole, p: nat, b: nat): nat
    requires w.parts > 0
  {
    if p < w.parts then PlacesBelow(w.parts, p, b)
    else if b < w.blocks then b / 4 / w.parts * 4
    else 4 * RowsBelow(w.parts, b)
  }

  ghost predicate AllDrawn(w: Whole, drafts: seq<Option<Draft>>, b: nat)
    requires w.Valid()
  {
    && |drafts| == w.parts + 1
    && forall p :: 0 <= p <= w.parts && drafts[p].Some? ==> w.Drawn(drafts[p].value, p, Written(w, p, b))
  }

  ghost predicate DataDrawn(w: Whole, drafts: seq<Option<Draft>>, b: nat)
    requires w.Valid()
  {
    && |drafts| == w.parts + 1
    && forall p :: 0 <= p < w.parts && drafts[p].Some? ==> w.Drawn(drafts[p].value, p, PlacesBelow(w.parts, p, b))
  }

  lemma BlockPlace(w: Whole, b: nat)
    requires w.Valid() && b < w.blocks
    ensures var p, q := PartOf(w.parts, b), PlaceOf(w.parts, b);
            && p < w.parts && q < BLOCKS
            && PlacesBelow(w.parts, p, b) == q && PlacesBelow(w.parts, p, b + 1) == q + 1
            && Block(w.data, b) == PieceBlock(w.data, w.parts, p, q) && w.crc[b] == w.PieceSum(p, q)
  {
    LayoutInverse(w.parts, 0, 0, b);
    PlacesStep(w.parts, PartOf(w.parts, b), b);
    PlaceBound(w.parts, b);
  }

  lemma PlaceBound(parts: nat, b: nat)
    requires parts > 0
    ensures PlaceOf(parts, b) <= b
  {
    QuotientBound(b / 4, parts);
  }

  lemma QuotientBound(h: nat, n: nat)
    requires n > 0
    ensures h / n <= h
  {
    var d := h / n;
    assert h == n * d + h % n;
    ProductBound(n, d);
  }

  lemma ProductBound(n: nat, d: nat)
    requires n > 0
    ensures n * d >= d
  {
    assert n * d == (n - 1) * d + d;
  }

  lemma OthersKeepPlace(parts: nat, b: nat)
    requires parts > 0
    ensures forall p :: 0 <= p < parts && p != PartOf(parts, b) ==> PlacesBelow(parts, p, b + 1) == PlacesBelow(parts, p, b)
  {
    forall p | 0 <= p < parts && p != PartOf(parts, b) ensures PlacesBelow(parts, p, b + 1) == PlacesBelow(parts, p, b) {
      PlacesStep(parts, p, b);
    }
  }

  /** Block b goes to its part, when that part is missing. */
  method CopyToPart(w: Whole, drafts: seq<Option<Draft>>, b: nat, sp: bool) returns (drafts': seq<Option<Draft>>)
    requires w.Valid() && b < w.blocks && DataDrawn(w, drafts, b)
    ensures DataDrawn(w, drafts', b + 1) && drafts'[w.parts] == drafts[w.parts]
    ensures forall p :: 0 <= p <= w.parts ==> drafts'[p].Some? == drafts[p].Some?
  {
    var part, partblock := PartOf(w.parts, b), PlaceOf(w.parts, b);
    BlockPlace(w, b);
    OthersKeepPlace(w.parts, b);
    drafts' := drafts;
    if drafts[part].Some? {
      var d := Append(drafts[part].value, partblock, Block(w.data, b), w.crc[b], sp, w, part);
      drafts' := drafts[part := Some(d)];
    }
  }

  /** The place of block b in its row. */
  function PosOf(parts: nat, b: nat): nat
    requires parts > 0
  {
    PartOf(parts, b) * 4 + b % 4
  }

  lemma RowPos(parts: nat, b: nat)
    requires parts > 0
    ensures b == b / 4 / parts * parts * 4 + PosOf(parts, b) && PosOf(parts, b) < 4 * parts
  {
    var h := b / 4;
    assert h == h / parts * parts + h % parts;
  }

  /** The kept blocks after block b was read. */
  lemma BufferNext(w: Whole, slots: seq<Option<Slot>>, b: nat)
    requires w.Valid() && b < w.blocks && Buffered(w, slots, b / 4 / w.parts, b)
    ensures PosOf(w.parts, b) < |slots|
    ensures Buffered(w, slots[PosOf(w.parts, b) := Some(Slot(Block(w.data, b), w.crc[b]))], b / 4 / w.parts, b + 1)
  {
    RowPos(w.parts, b);
  }

  lemma NoneBuffered(w: Whole, r: nat, b: nat)
    requires w.Valid() && b <= w.blocks && b <= r * w.parts * 4
    ensures Buffered(w, seq(4 * w.parts, _ => None), r, b)
  {
  }

  /** A row ends with its last block or with the chunk. */
  predicate RowEnds(w: Whole, b: nat)
    requires w.parts > 0
  {
    PosOf(w.parts, b) == 4 * w.parts - 1 || b + 1 == w.blocks
  }

  lemma NextRow(parts: nat, b: nat)
    requires parts > 0
    ensures PosOf(parts, b) < 4 * parts - 1 ==> (b + 1) / 4 / parts == b / 4 / parts
    ensures PosOf(parts, b) >= 4 * parts - 1 ==> (b + 1) / 4 / parts == b / 4 / parts + 1
    ensures PosOf(parts, b) >= 4 * parts - 1 ==> (b + 1) / 4 / parts * parts * 4 == b + 1
  {
    NextGroup(b / 4, parts);
    assert b % 4 < 3 ==> (b + 1) / 4 == b / 4;
    assert b % 4 == 3 ==> (b + 1) / 4 == b / 4 + 1;
    RowPos(parts, b + 1);
  }

  lemma RowEnd(w: Whole, b: nat)
    requires w.Valid() && b < w.blocks
    ensures 4 * (b / 4 / w.parts) + 4 <= BLOCKS
    ensures Written(w, w.parts, b) == 4 * (b / 4 / w.parts)
    ensures RowEnds(w, b) ==> Written(w, w.parts, b + 1) == 4 * (b / 4 / w.parts) + 4
    ensures !RowEnds(w, b) ==> Written(w, w.parts, b + 1) == Written(w, w.parts, b)
  {
    QuotientBound(b / 4, w.parts);
    NextRow(w.parts, b);
  }

  /** Block b: read when needed, copied, kept, and at the end of a row turned into parity. */
  method SplitBlock(w: Whole, drafts: seq<Option<Draft>>, slots: seq<Option<Slot>>, b: nat, readall: bool, sp: bool)
    returns (drafts': seq<Option<Draft>>, slots': seq<Option<Slot>>)
    requires w.Valid() && b < w.blocks && AllDrawn(w, drafts, b) && |slots| == 4 * w.parts
    requires drafts[w.parts].Some? ==> Buffered(w, slots, b / 4 / w.parts, b)
    requires drafts[w.parts].Some? ==> readall || forall p :: 0 <= p < w.parts ==> drafts[p].Some?
    ensures AllDrawn(w, drafts', b + 1) && |slots'| == 4 * w.parts
    ensures forall p :: 0 <= p <= w.parts ==> drafts'[p].Some? == drafts[p].Some?
    ensures b + 1 < w.blocks && drafts[w.parts].Some? ==> Buffered(w, slots', (b + 1) / 4 / w.parts, b + 1)
  {
    slots' := slots;
    RowPos(w.parts, b);
    if readall || drafts[PartOf(w.parts, b)].Some? {
      slots' := slots[PosOf(w.parts, b) := Some(Slot(Block(w.data, b), w.crc[b]))];
    }
    drafts' := CopyToPart(w, drafts, b, sp);
    if drafts[w.parts].Some? {
      BufferNext(w, slots, b);
    }
    RowEnd(w, b);
    NextRow(w.parts, b);
    if RowEnds(w, b) {
      if drafts[w.parts].Some? {
        BufferFull(w, slots', b / 4 / w.parts, b);
        var d := ParityRow(w, drafts'[w.parts].value, slots', b / 4 / w.parts, sp);
        drafts' := drafts'[w.parts := Some(d)];
      }
      slots' := seq(4 * w.parts, _ => None);
      if b + 1 < w.blocks {
        NoneBuffered(w, (b + 1) / 4 / w.parts, b + 1);
      }
    }
  }

  /** At the end of a row everything the chunk has of it was read. */
  lemma BufferFull(w: Whole, slots: seq<Option<Slot>>, r: nat, b: nat)
    requires w.Valid() && b < w.blocks && RowEnds(w, b) && r == b / 4 / w.parts
    requires Buffered(w, slots, r, b + 1)
    ensures Buffered(w, slots, r, w.blocks)
  {
    RowPos(w.parts, b);
  }

  /** Empty drafts of the missing parts. */
  method Begin(w: Whole, missing: set<nat>) returns (drafts: seq<Option<Draft>>)
    requires w.Valid()
    ensures AllDrawn(w, drafts, 0)
    ensures forall p :: 0 <= p <= w.parts ==> drafts[p].Some? == (p in missing)
  {
    var empty := Draft(0, [], seq(BLOCKS, _ => w.k.Zeros(BLOCK)), false);
    drafts := seq(w.parts + 1, p requires 0 <= p <= w.parts => if p in missing then Some(empty) else None);
    forall p | 0 <= p <= w.parts ensures Written(w, p, 0) == 0 {
      if p < w.parts {
        PlacesEnd(w.parts, p, 0, 0);
      }
    }
  }

  /** The pass over the source. */
  method Draw(w: Whole, missing: set<nat>, sp: bool) returns (drafts: seq<Option<Draft>>)
    requires w.Valid()
    ensures AllDrawn(w, drafts, w.blocks)
    ensures forall p :: 0 <= p <= w.parts ==> drafts[p].Some? == (p in missing)
  {
    drafts := Begin(w, missing);
    var readall := w.parts in missing && exists p :: 0 <= p < w.parts && p !in missing;
    var slots := seq(4 * w.parts, _ => None);
    NoneBuffered(w, 0, 0);
    var b := 0;
    while b < w.blocks
      invariant 0 <= b <= w.blocks
      invariant AllDrawn(w, drafts, b) && |slots| == 4 * w.parts
      invariant forall p :: 0 <= p <= w.parts ==> drafts[p].Some? == (p in missing)
      invariant b < w.blocks && drafts[w.parts].Some? ==> Buffered(w, slots, b / 4 / w.parts, b)
    {
      drafts, slots := SplitBlock(w, drafts, slots, b, readall, sp);
      b := b + 1;
    }
  }

  /** Part p of the source, complete. */
  ghost predicate IsPiece(w: Whole, c: Chunk, p: nat)
    requires w.Valid()
    reads c
  {
    && c.k == w.k && c.Shape() && c.blocks == PieceBlocks(w.parts, p, w.blocks)
    && HoldsPiece(c.data, w.data, w.parts, p)
    && (forall q :: 0 <= q < BLOCKS ==> c.crc[q] == if q < c.blocks then w.PieceSum(p, q) else w.k.Zeros(BLOCK))
  }

  lemma FinishedBlocks(w: Whole, d: Draft, p: nat, data: seq<bv8>)
    requires w.Valid() && w.Drawn(d, p, PieceBlocks(w.parts, p, w.blocks))
    requires data == Ftruncate(d.data, d.blocks * BLOCK)
    ensures HoldsPiece(data, w.data, w.parts, p)
  {
    forall q: nat ensures Block(data, q) == PieceBlock(w.data, w.parts, p, q) {
      SameBlocks(d.data, d.blocks * BLOCK, q);
      if q >= d.blocks {
        PieceEnds(w.data, w.blocks, w.parts, p, q);
        BlockPastEnd(data, q);
      }
    }
  }

  /** The file gets its length and the chunk its version. */
  method Finish(w: Whole, d: Draft, version: nat, ghost p: nat) returns (c: Chunk)
    requires w.Valid() && w.Drawn(d, p, PieceBlocks(w.parts, p, w.blocks))
    ensures fresh(c) && c.version == version && !c.crcchanged && c.disk == c.crc && IsPiece(w, c, p)
  {
    var data := d.data;
    if d.truncneeded {
      data := Ftruncate(data, d.blocks * BLOCK);
    }
    assert data == Ftruncate(d.data, d.blocks * BLOCK);
    FinishedBlocks(w, d, p, data);
    c := new Chunk.Copied(w.k, version, d.blocks, data, d.crc, d.crc, ZeroBytes(BLOCK), NOBLOCK);
  }

  method FinishAll(w: Whole, drafts: seq<Option<Draft>>, version: nat) returns (pieces: seq<Chunk?>)
    requires w.Valid() && AllDrawn(w, drafts, w.blocks)
    ensures |pieces| == w.parts + 1
    ensures forall p :: 0 <= p <= w.parts ==>
              if drafts[p].Some? then pieces[p] != null && fresh(pieces[p]) && pieces[p].version == version && IsPiece(w, pieces[p], p)
              else pieces[p] == null
    ensures forall p, q :: 0 <= p < q <= w.parts && pieces[p] != null ==> pieces[p] != pieces[q]
  {
    pieces := [];
    var i := 0;
    while i <= w.parts
      invariant 0 <= i <= w.parts + 1 && |pieces| == i
      invariant forall p :: 0 <= p < i ==>
                  if drafts[p].Some? then pieces[p] != null && fresh(pieces[p]) && pieces[p].version == version && IsPiece(w, pieces[p], p)
                  else pieces[p] == null
      invariant forall p, q :: 0 <= p < q < i && pieces[p] != null ==> pieces[p] != pieces[q]
    {
      var c: Chunk? := null;
      if drafts[i].Some? {
        c := Finish(w, drafts[i].value, version, i);
      }
      pieces := pieces + [c];
      i := i + 1;
    }
  }

  /** The source a chunk is. */
  function WholeOf(c: Chunk, parts: nat): (w: Whole)
    reads c
  {
    Whole(c.k, c.data, c.crc, c.blocks, parts)
  }

  /** hdd_int_split; missing is the set of the bits of the mask. */
  method Split(oc: Chunk, version: nat, parts: nat, missing: set<nat>, sp: bool) returns (status: Status, pieces: seq<Chunk?>)
    requires oc.Shape()
    modifies oc
    ensures oc.Shape() && oc.data == old(oc.data) && oc.blocks == old(oc.blocks) && oc.crc == old(oc.crc)
    ensures oc.version == old(oc.version)
    ensures status == if (parts != 4 && parts != 8) || (exists p :: p in missing && p > parts) then Einval
                      else if old(oc.version) != version && version > 0 then WrongVersion else Done
    ensures status != Done ==> pieces == []
    ensures status == Done ==>
              && |pieces| == parts + 1
              && (forall p :: 0 <= p <= parts ==>
                    if p in missing then
                      pieces[p] != null && fresh(pieces[p]) && pieces[p].version == version && IsPiece(WholeOf(oc, parts), pieces[p], p)
                    else pieces[p] == null)
              && (forall p, q :: 0 <= p < q <= parts && pieces[p] != null ==> pieces[p] != pieces[q])
  {
    pieces := [];
    if (parts != 4 && parts != 8) || exists p :: p in missing && p > parts {
      return Einval, pieces;
    }
    if oc.version != version && version > 0 {
      return WrongVersion, pieces;
    }
    var w := WholeOf(oc, parts);
    var drafts := Draw(w, missing, sp);
    oc.IoEnd();
    pieces := FinishAll(w, drafts, version);
    status := Done;
  }

  /** A part of an intact chunk is intact. */
  lemma PieceIntact(w: Whole, c: Chunk, p: nat)
    requires w.Valid() && w.parts % 2 == 0 && IsPiece(w, c, p)
    requires Agrees(w.k, w.data, w.crc, w.blocks)
    ensures c.Valid()
  {
    forall q | 0 <= q < c.blocks ensures c.crc[q] == c.k.crc(Block(c.data, q)) {
      w.PieceSumIsCrc(p, q);
    }
  }
}
