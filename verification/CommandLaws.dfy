/**
 What the flat model of a server promises for each command: when it is accepted, what it answers
 otherwise, and what is there afterwards.
 */
module CommandLaws {
  import opened Checksums
  import opened ChunkData
  import opened ChunkStore
  import opened ChunkRefinement
  import opened Erasure
  import opened ChunkSplit
  import opened ChunkServer

  /** A chunk is there, in the version asked for; any version will do for zero. */
  predicate Present(m: Flats, id: nat, ver: nat) {
    id in m && (ver == 0 || ver == m[id].version)
  }

  /** The map is the same but for some ids. */
  ghost predicate SameBut(m: Flats, r: Flats, ids: set<nat>) {
    forall i :: i !in ids ==> (i in r <==> i in m) && (i in m ==> r[i] == m[i])
  }

  /** hdd_int_delete. */
  lemma DeleteLaw(k: Sums, m: Flats, id: nat, ver: nat)
    ensures var a, r := Reply(k, m, Delete(id, ver)).status, Outcome(k, m, Delete(id, ver));
            && (a == Done <==> Present(m, id, ver))
            && (a == Done ==> id !in r && SameBut(m, r, {id}))
            && (a != Done ==> r == m && a == if id in m then WrongVersion else NoChunk)
  {
  }

  /** hdd_int_create. */
  lemma CreateLaw(k: Sums, m: Flats, id: nat, version: nat)
    ensures var a, r := Reply(k, m, Create(id, version)).status, Outcome(k, m, Create(id, version));
            && (a == Done <==> id !in m)
            && (a == Done ==> id in r && r[id] == Flat(version, []) && SameBut(m, r, {id}))
            && (a != Done ==> r == m && a == ChunkExist)
  {
  }

  /** What a copy leaves of its source: the contents, under the new version if that is another one. */
  ghost predicate SourceKept(m: Flats, r: Flats, id: nat, ver: nat, newver: nat) {
    && id in m && id in r && r[id].bytes == m[id].bytes
    && r[id].version == if newver == ver then m[id].version else newver
  }

  /** hdd_int_duplicate. */
  lemma DuplicateLaw(k: Sums, m: Flats, id: nat, ver: nat, newver: nat, copyid: nat, copyver: nat, sp: bool)
    ensures var cmd := Duplicate(id, ver, newver, copyid, copyver, sp);
            var a, r := Reply(k, m, cmd).status, Outcome(k, m, cmd);
            && (a == Done <==> Present(m, id, ver) && copyid !in m)
            && (a == Done ==>
                  && SourceKept(m, r, id, ver, newver) && SameBut(m, r, {id, copyid})
                  && copyid in r && r[copyid].bytes == m[id].bytes && r[copyid].version == (if copyver == 0 then newver else copyver))
            && (a != Done ==> r == m && a == if id !in m then NoChunk else if !Present(m, id, ver) then WrongVersion else ChunkExist)
  {
  }

  /** The first length bytes, then zeros up to the end of the last block. */
  ghost predicate Shortened(was: seq<bv8>, now: seq<bv8>, length: nat) {
    && |now| % BLOCK == 0 && length <= |now| < length + BLOCK
    && forall i: nat :: ByteAt(now, i) == if i < length then ByteAt(was, i) else 0
  }

  lemma CutShortens(was: seq<bv8>, length: nat)
    ensures Shortened(was, Cut(was, length, BlocksOf(length) * BLOCK), length)
  {
    var n := BlocksOf(length);
    assert length <= n * BLOCK < length + BLOCK;
    assert n * BLOCK % BLOCK == 0;
  }

  /** hdd_int_duptrunc. */
  lemma DupTruncLaw(k: Sums, m: Flats, id: nat, ver: nat, newver: nat, copyid: nat, copyver: nat, length: nat, sp: bool)
    ensures var cmd := DupTrunc(id, ver, newver, copyid, copyver, length, sp);
            var a, r := Reply(k, m, cmd).status, Outcome(k, m, cmd);
            && (a == Done <==> length <= CHUNK && Present(m, id, ver) && copyid !in m)
            && (a == Done ==>
                  && SourceKept(m, r, id, ver, newver) && SameBut(m, r, {id, copyid})
                  && copyid in r && Shortened(m[id].bytes, r[copyid].bytes, length)
                  && r[copyid].version == (if copyver == 0 then newver else copyver))
            && (a != Done ==> r == m && a == if length > CHUNK then WrongSize else if id !in m then NoChunk
                                             else if !Present(m, id, ver) then WrongVersion else ChunkExist)
  {
    if id in m {
      CutShortens(m[id].bytes, length);
    }
  }

  // ----- Splitting -----

  /** The id of a part tells the chunk, the number of data parts and the part. */
  lemma PartIdTells(id: nat, parts: nat, p: nat)
    requires id < PART_STEP && (parts == 4 || parts == 8) && p <= parts
    ensures PartId(id, parts, p) % PART_STEP == id
    ensures PartId(id, parts, p) / PART_STEP == (if parts == 4 then 0x10 else 0x20) + p
  {
  }

  /** A block behind whole blocks. */
  lemma OneBlockMore(a: seq<bv8>, b: seq<bv8>, m: nat, q: nat)
    requires |a| == m * BLOCK && |b| == BLOCK && q <= m
    ensures Block(a + b, q) == if q < m then Block(a, q) else b
  {
    var d := if q < m then Block(a, q) else b;
    assert q < m ==> (q + 1) * BLOCK <= m * BLOCK;
    forall i | 0 <= i < BLOCK ensures Block(a + b, q)[i] == d[i] {
      assert ByteAt(a + b, q * BLOCK + i) == (a + b)[q * BLOCK + i];
    }
  }

  /** Blocks written one after the other, where ds[i] is what there is after i of them. */
  lemma {:induction false} BlocksJoined(ds: seq<seq<bv8>>, bs: seq<seq<bv8>>, n: nat, q: nat)
    requires q < n <= |bs| && |ds| == |bs| + 1
    requires forall i :: 0 <= i < |bs| ==> |bs[i]| == BLOCK && |ds[i]| == i * BLOCK && ds[i + 1] == ds[i] + bs[i]
    ensures Block(ds[n], q) == bs[q]
    decreases n
  {
    var m := n - 1;
    assert ds[m + 1] == ds[m] + bs[m] && |ds[m]| == m * BLOCK && |bs[m]| == BLOCK;
    OneBlockMore(ds[m], bs[m], m, q);
    if q < m {
      BlocksJoined(ds, bs, m, q);
    }
  }

  lemma PieceBytesHold(src: seq<bv8>, parts: nat, p: nat, n: nat, q: nat)
    requires q < n
    ensures Block(PieceBytes(src, parts, p, n), q) == PieceBlock(src, parts, p, q)
  {
    var bs := seq(n, i requires 0 <= i < n => PieceBlock(src, parts, p, i));
    var ds := seq(n + 1, i requires 0 <= i <= n => PieceBytes(src, parts, p, i));
    BlocksJoined(ds, bs, n, q);
  }

  /** A part, zero-extended, is that part of the coded chunk. */
  lemma PieceHolds(f: Flat, ver: nat, parts: nat, p: nat)
    requires parts > 0 && |f.bytes| % BLOCK == 0
    ensures PieceOf(f, ver, parts, p).version == ver && HoldsPiece(PieceOf(f, ver, parts, p).bytes, f.bytes, parts, p)
  {
    var blocks := |f.bytes| / BLOCK;
    var n := PieceBlocks(parts, p, blocks);
    var d := PieceBytes(f.bytes, parts, p, n);
    forall q: nat ensures Block(d, q) == PieceBlock(f.bytes, parts, p, q) {
      if q < n {
        PieceBytesHold(f.bytes, parts, p, n, q);
      } else {
        BlockPastEnd(d, q);
        assert |f.bytes| == blocks * BLOCK;
        PieceEnds(f.bytes, blocks, parts, p, q);
      }
    }
  }

  /** When hdd_int_split is accepted. */
  predicate MaySplit(m: Flats, id: nat, ver: nat, parts: nat, missing: set<nat>) {
    && (parts == 4 || parts == 8) && (forall p :: p in missing ==> p <= parts) && id < PART_STEP
    && Present(m, id, ver) && forall p :: p in missing ==> PartId(id, parts, p) !in m
  }

  lemma SplitStatus(k: Sums, m: Flats, id: nat, ver: nat, parts: nat, missing: set<nat>, sp: bool)
    ensures var a := Reply(k, m, Split(id, ver, parts, missing, sp)).status;
            && (a == Done <==> MaySplit(m, id, ver, parts, missing))
            && (a == Einval <==> (parts != 4 && parts != 8) || id >= PART_STEP || exists p :: p in missing && p > parts)
            && (a != Done && a != Einval ==>
                  a == if id !in m then NoChunk else if !Present(m, id, ver) then WrongVersion else ChunkExist)
  {
  }

  /** hdd_int_split: the missing parts are there afterwards, and nothing else changed. */
  lemma SplitLaw(k: Sums, m: Flats, id: nat, ver: nat, parts: nat, missing: set<nat>, sp: bool)
    requires id in m ==> |m[id].bytes| % BLOCK == 0
    ensures var cmd := Split(id, ver, parts, missing, sp);
            var a, r := Reply(k, m, cmd).status, Outcome(k, m, cmd);
            && (a != Done ==> r == m)
            && (a == Done ==>
                  && (forall p :: p in missing ==>
                        var i := PartId(id, parts, p);
                        i in r && r[i].version == ver && HoldsPiece(r[i].bytes, m[id].bytes, parts, p))
                  && (forall i :: (forall p :: p in missing ==> PartId(id, parts, p) != i) ==>
                        (i in r <==> i in m) && (i in m ==> r[i] == m[i])))
  {
    var cmd := Split(id, ver, parts, missing, sp);
    SplitStatus(k, m, id, ver, parts, missing, sp);
    if Reply(k, m, cmd).status == Done {
      forall p | p in missing
        ensures var i := PartId(id, parts, p);
                var r := Outcome(k, m, cmd);
                i in r && r[i].version == ver && HoldsPiece(r[i].bytes, m[id].bytes, parts, p)
      {
        PartAdded(m, m[id], cmd, parts + 1, p);
        PieceHolds(m[id], ver, parts, p);
      }
      forall i | forall p :: p in missing ==> PartId(id, parts, p) != i
        ensures var r := Outcome(k, m, cmd); (i in r <==> i in m) && (i in m ==> r[i] == m[i])
      {
        OthersKept(m, m[id], cmd, parts + 1, i);
      }
    }
  }

  // ----- Operations on one chunk -----

  /** When an operation on a chunk is accepted. */
  lemma OpLaw(k: Sums, m: Flats, id: nat, op: Op)
    ensures var a := Reply(k, m, On(id, op)).status;
            match op
            case Write(ver, b, buf, off, sum, _) =>
              a == Done <==> Present(m, id, ver) && b < BLOCKS && off < BLOCK && off + |buf| <= BLOCK && sum == k.crc(buf)
            case Read(ver, b, off, size) =>
              a == Done <==> Present(m, id, ver) && b < BLOCKS && off < BLOCK && off + size <= BLOCK
            case Truncate(ver, _, length) => a == Done <==> Present(m, id, ver) && length <= CHUNK
            case Reopen => a == Done <==> id in m
    ensures Reply(k, m, On(id, op)).status != Done ==> Outcome(k, m, On(id, op)) == m
  {
  }

  // ----- Any sequence of commands -----

  /** All chunks have whole blocks. */
  ghost predicate WholeBlocks(m: Flats) {
    forall i :: i in m ==> |m[i].bytes| % BLOCK == 0
  }

  lemma Multiple(n: nat)
    ensures n * BLOCK % BLOCK == 0
  {
  }

  lemma EffectWhole(k: Sums, f: Flat, op: Op)
    requires |f.bytes| % BLOCK == 0
    ensures |Effect(k, f, op).bytes| % BLOCK == 0
  {
    if op.Write? {
      Multiple(op.b + 1);
    } else if op.Truncate? {
      Multiple(BlocksOf(op.length));
    }
  }

  lemma {:induction false} PartsWhole(m: Flats, f: Flat, cmd: Command, n: nat)
    requires cmd.Split? && cmd.parts > 0 && WholeBlocks(m)
    ensures WholeBlocks(WithParts(m, f, cmd, n))
    decreases n
  {
    if n > 0 {
      PartsWhole(m, f, cmd, n - 1);
      Multiple(PieceBlocks(cmd.parts, n - 1, |f.bytes| / BLOCK));
    }
  }

  lemma OutcomeWhole(k: Sums, m: Flats, cmd: Command)
    requires WholeBlocks(m)
    ensures WholeBlocks(Outcome(k, m, cmd))
  {
    if cmd.On? && cmd.id in m {
      EffectWhole(k, m[cmd.id], cmd.op);
    } else if cmd.DupTrunc? {
      Multiple(BlocksOf(cmd.length));
    } else if cmd.Split? && Verdict(k, m, cmd) == Done {
      PartsWhole(m, m[cmd.id], cmd, cmd.parts + 1);
    }
  }

  /** Every chunk that any commands make or change has whole blocks. */
  lemma {:induction false} AlwaysWhole(k: Sums, m: Flats, cmds: seq<Command>)
    requires WholeBlocks(m)
    ensures WholeBlocks(Outcomes(k, m, cmds))
    decreases |cmds|
  {
    if |cmds| > 0 {
      OutcomeWhole(k, m, cmds[0]);
      AlwaysWhole(k, Outcome(k, m, cmds[0]), cmds[1..]);
    }
  }
}
