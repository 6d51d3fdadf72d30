/**
 hdd_int_split on one server and replicate() on others agree: any one part of a chunk can be lost,
 recovered from the rest and joined with them, and SPLIT builds the same parts remotely.
 */
module ErasureRoundTrip {
  import opened Crc32
  import opened Checksums
  import opened ChunkData
  import opened ChunkStore
  import opened Erasure
  import opened ChunkSplit
  import opened Replicator

  /** What a server that holds part p answers. */
  ghost predicate IsPart(w: Whole, x: Source, p: nat)
    requires w.Valid()
  {
    && x.Valid() && x.blocks == PieceBlocks(w.parts, p, w.blocks)
    && HoldsPiece(x.data, w.data, w.parts, p)
  }

  ghost predicate AllParts(w: Whole, srcs: seq<Source>)
    requires w.Valid()
  {
    |srcs| == w.parts + 1 && forall p :: 0 <= p <= w.parts ==> IsPart(w, srcs[p], p)
  }

  function Without<T>(s: seq<T>, j: nat): seq<T>
    requires j < |s|
  {
    s[..j] + s[j + 1..]
  }

  lemma WithoutAt<T>(s: seq<T>, j: nat, i: nat)
    requires j < |s| && i < |s| - 1
    ensures Without(s, j)[i] == if i < j then s[i] else s[i + 1]
  {
  }

  lemma PartBlock(w: Whole, srcs: seq<Source>, p: nat, q: nat)
    requires w.Valid() && AllParts(w, srcs) && p <= w.parts
    ensures Block(srcs[p].data, q) == PieceBlock(w.data, w.parts, p, q)
  {
    assert IsPart(w, srcs[p], p);
  }

  lemma RestBlock(w: Whole, srcs: seq<Source>, lost: nat, q: nat, i: nat)
    requires w.Valid() && AllParts(w, srcs) && lost <= w.parts && i < w.parts
    ensures BlocksAt(Without(srcs, lost), q)[i] == Without(FullRow(w.data, w.parts, q), lost)[i]
  {
    PartBlock(w, srcs, if i < lost then i else i + 1, q);
    WithoutAt(srcs, lost, i);
    WithoutAt(FullRow(w.data, w.parts, q), lost, i);
  }

  lemma RestBlocks(w: Whole, srcs: seq<Source>, lost: nat, q: nat)
    requires w.Valid() && AllParts(w, srcs) && lost <= w.parts
    ensures BlocksAt(Without(srcs, lost), q) == Without(FullRow(w.data, w.parts, q), lost)
  {
    var x, y := BlocksAt(Without(srcs, lost), q), Without(FullRow(w.data, w.parts, q), lost);
    assert |x| == |y| == w.parts;
    forall i | 0 <= i < w.parts ensures x[i] == y[i] {
      RestBlock(w, srcs, lost, q, i);
    }
  }

  /** The remaining parts add up to the lost one. */
  lemma RestIsLost(w: Whole, srcs: seq<Source>, lost: nat, q: nat)
    requires w.Valid() && AllParts(w, srcs) && lost <= w.parts
    ensures XorFold(BlocksAt(Without(srcs, lost), q)) == PieceBlock(w.data, w.parts, lost, q)
  {
    LostPart(w.data, w.parts, lost, q);
    RestBlocks(w, srcs, lost, q);
  }

  lemma RestIsAllLost(w: Whole, srcs: seq<Source>, lost: nat, data: seq<bv8>)
    requires w.Valid() && AllParts(w, srcs) && lost <= w.parts
    requires HoldsXor(data, Without(srcs, lost))
    ensures HoldsPiece(data, w.data, w.parts, lost)
  {
    forall q: nat ensures Block(data, q) == PieceBlock(w.data, w.parts, lost, q) {
      RestIsLost(w, srcs, lost, q);
    }
  }

  lemma RestValid(w: Whole, srcs: seq<Source>, lost: nat)
    requires w.Valid() && AllParts(w, srcs) && lost <= w.parts
    ensures |Without(srcs, lost)| == w.parts && forall x :: x in Without(srcs, lost) ==> x.Valid()
  {
    forall x | x in Without(srcs, lost) ensures x.Valid() {
      var j :| 0 <= j < |srcs| && srcs[j] == x;
    }
  }

  /** The last row of a part begins no later than the end of any other. */
  lemma LastRow(parts: nat, p: nat, x: nat, blocks: nat)
    requires p <= parts && x <= parts && parts > 0
    requires PieceBlocks(parts, x, blocks) > 0
    ensures (PieceBlocks(parts, x, blocks) - 1) / 4 * 4 <= PieceBlocks(parts, p, blocks)
  {
    var h := blocks / 4;
    assert PieceBlocks(parts, p, blocks) >= h / parts * 4 by {
      if p == parts {
        RowsAtLeast(parts, blocks);
      }
    }
    assert (PieceBlocks(parts, x, blocks) - 1) / 4 <= h / parts by {
      if x == parts {
        RowsAtMost(parts, blocks);
      }
    }
  }

  lemma RowsAtLeast(parts: nat, blocks: nat)
    requires parts > 0
    ensures RowsBelow(parts, blocks) >= blocks / 4 / parts
  {
    if blocks > 0 {
      NextRow(parts, blocks - 1);
    }
  }

  lemma RowsAtMost(parts: nat, blocks: nat)
    requires parts > 0 && blocks > 0
    ensures RowsBelow(parts, blocks) - 1 <= blocks / 4 / parts
  {
    NextRow(parts, blocks - 1);
  }

  /** The remaining parts end where the lost part ended. */
  lemma RestEnds(w: Whole, srcs: seq<Source>, lost: nat)
    requires w.Valid() && AllParts(w, srcs) && lost <= w.parts
    ensures EndsBy(Without(srcs, lost), PieceBlocks(w.parts, lost, w.blocks))
  {
    var rest, end := Without(srcs, lost), PieceBlocks(w.parts, lost, w.blocks);
    forall q: nat | q >= end ensures XorFold(BlocksAt(rest, q)) == ZeroBytes(BLOCK) {
      RestIsLost(w, srcs, lost, q);
      PieceEnds(w.data, w.blocks, w.parts, lost, q);
    }
    forall x | x in rest && x.blocks > 0 ensures (x.blocks - 1) / 4 * 4 <= end {
      var j :| 0 <= j < |srcs| && srcs[j] == x;
      LastRow(w.parts, lost, j, w.blocks);
    }
  }

  /** A source that can take the place of data part p in a join. */
  ghost predicate JoinsAs(w: Whole, x: Source, p: nat)
    requires w.Valid()
  {
    && x.Valid() && HoldsPiece(x.data, w.data, w.parts, p)
    && (x.blocks > 0 ==> SourceIndex(w.parts, p, x.blocks - 1) < w.blocks)
  }

  ghost predicate Joinable(w: Whole, srcs: seq<Source>)
    requires w.Valid()
  {
    |srcs| == w.parts && forall p :: 0 <= p < w.parts ==> JoinsAs(w, srcs[p], p)
  }

  lemma JoinedIsSource(w: Whole, srcs: seq<Source>, s: nat)
    requires w.Valid() && Joinable(w, srcs)
    ensures Joined(srcs, s) == Block(w.data, s)
  {
    LayoutInverse(w.parts, 0, 0, s);
  }

  lemma PartJoins(w: Whole, x: Source, p: nat)
    requires w.Valid() && p < w.parts
    requires x.Valid() && x.blocks <= PieceBlocks(w.parts, p, w.blocks) && HoldsPiece(x.data, w.data, w.parts, p)
    ensures JoinsAs(w, x, p)
  {
    if x.blocks > 0 {
      PlacesEnd(w.parts, p, w.blocks, x.blocks - 1);
    }
  }

  /** The data parts, with x in place of the lost part. */
  lemma ReplacedJoins(w: Whole, srcs: seq<Source>, lost: nat, x: Source)
    requires w.Valid() && AllParts(w, srcs) && lost <= w.parts
    requires lost < w.parts ==> JoinsAs(w, x, lost)
    ensures Joinable(w, srcs[lost := x][..w.parts])
  {
    forall p | 0 <= p < w.parts && p != lost ensures JoinsAs(w, srcs[p], p) {
      PartJoins(w, srcs[p], p);
    }
  }

  /** RECOVER on what is left of the parts. */
  method RecoverPart(w: Whole, srcs: seq<Source>, lost: nat, sp: bool) returns (c: Chunk)
    requires w.Valid() && (w.parts == 4 || w.parts == 8) && AllParts(w, srcs) && lost <= w.parts
    ensures fresh(c) && c.k == w.k && c.Valid()
    ensures HoldsPiece(c.data, w.data, w.parts, lost)
    ensures c.blocks <= PieceBlocks(w.parts, lost, w.blocks)
  {
    RestValid(w, srcs, lost);
    RestEnds(w, srcs, lost);
    var rest := Without(srcs, lost);
    assert 0 < |rest| <= Replicator.MAX_EC_PARTS && |rest| % 2 == 0;
    var status;
    status, c := Replicator.Recover(w.k, rest, sp, PieceBlocks(w.parts, lost, w.blocks));
    assert HoldsXor(c.data, rest);
    RestIsAllLost(w, srcs, lost, c.data);
  }

  /** JOIN of the data parts. */
  method JoinParts(w: Whole, srcs: seq<Source>, sp: bool) returns (c: Chunk)
    requires w.Valid() && w.parts <= Replicator.MAX_EC_PARTS && Joinable(w, srcs)
    ensures fresh(c) && c.k == w.k && c.Valid()
    ensures forall s: nat :: Block(c.data, s) == Block(w.data, s)
  {
    forall x | x in srcs ensures x.Valid() {
      var j :| 0 <= j < |srcs| && srcs[j] == x;
    }
    assert Replicator.Fits(srcs);
    var status;
    status, c := Replicator.Join(w.k, srcs, sp);
    forall s: nat ensures Block(c.data, s) == Block(w.data, s) {
      JoinedIsSource(w, srcs, s);
    }
  }

  /** Every server holds its part. */
  ghost predicate AllPieces(w: Whole, pieces: seq<Chunk>)
    requires w.Valid()
    reads pieces
  {
    |pieces| == w.parts + 1 && forall p :: 0 <= p <= w.parts ==> IsPiece(w, pieces[p], p)
  }

  /** Part i is read; all its checksums are right. */
  method Answer(w: Whole, piece: Chunk, p: nat) returns (x: Source)
    requires w.Valid() && w.parts % 2 == 0 && Agrees(w.k, w.data, w.crc, w.blocks) && IsPiece(w, piece, p)
    modifies piece`block, piece`blockno
    ensures IsPiece(w, piece, p) && IsPart(w, x, p)
  {
    PieceIntact(w, piece, p);
    var status;
    status, x := Replicator.ReadSource(piece);
  }

  /** The answers of the servers that hold the parts of an intact chunk, read through hdd_read. */
  method Answers(w: Whole, pieces: seq<Chunk>) returns (srcs: seq<Source>)
    requires w.Valid() && w.parts % 2 == 0 && Agrees(w.k, w.data, w.crc, w.blocks) && AllPieces(w, pieces)
    requires forall p, q :: 0 <= p < q < |pieces| ==> pieces[p] != pieces[q]
    modifies pieces`block, pieces`blockno
    ensures AllParts(w, srcs) && AllPieces(w, pieces)
  {
    srcs := [];
    var i := 0;
    while i <= w.parts
      invariant 0 <= i <= w.parts + 1 && |srcs| == i && AllPieces(w, pieces)
      invariant forall p :: 0 <= p < i ==> IsPart(w, srcs[p], p)
    {
      var x := Answer(w, pieces[i], i);
      srcs := srcs + [x];
      i := i + 1;
    }
  }

  /** The mask of all parts. */
  method FullMask(parts: nat) returns (all: set<nat>)
    ensures forall p: nat :: p in all <==> p <= parts
  {
    all := {};
    var i := 0;
    while i <= parts
      invariant 0 <= i <= parts + 1
      invariant forall p: nat :: p in all <==> p < i
    {
      all := all + {i};
      i := i + 1;
    }
  }

  /** The source split into all its parts, and the parts read again. */
  method SplitAll(oc: Chunk, parts: nat, sp: bool) returns (srcs: seq<Source>)
    requires oc.Valid() && (parts == 4 || parts == 8)
    modifies oc
    ensures oc.Valid() && oc.data == old(oc.data) && AllParts(WholeOf(oc, parts), srcs)
  {
    var all := FullMask(parts);
    var status, made := ChunkSplit.Split(oc, 0, parts, all, sp);
    var pieces: seq<Chunk> := [];
    var i := 0;
    while i <= parts
      invariant 0 <= i <= parts + 1 && |pieces| == i && forall p :: 0 <= p < i ==> pieces[p] == made[p]
    {
      pieces := pieces + [made[i]];
      i := i + 1;
    }
    assert AllPieces(WholeOf(oc, parts), pieces);
    srcs := Answers(WholeOf(oc, parts), pieces);
  }

  /** RECOVER of the lost part, then JOIN of the data parts. */
  method RecoverAndJoin(w: Whole, srcs: seq<Source>, lost: nat, sp: bool) returns (part: Chunk, whole: Chunk)
    requires w.Valid() && (w.parts == 4 || w.parts == 8) && AllParts(w, srcs) && lost <= w.parts
    ensures part.Valid() && whole.Valid()
    ensures HoldsPiece(part.data, w.data, w.parts, lost)
    ensures forall s: nat :: Block(whole.data, s) == Block(w.data, s)
  {
    part := RecoverPart(w, srcs, lost, sp);
    var status, x := Replicator.ReadSource(part);
    if lost < w.parts {
      PartJoins(w, x, lost);
    }
    ReplacedJoins(w, srcs, lost, x);
    whole := JoinParts(w, srcs[lost := x][..w.parts], sp);
  }

  /**
   A chunk is split into all its parts, any one of them is lost, recovered from the others, and the
   data parts are joined: the recovered part and the joined chunk hold what the lost part and the
   source held.
   */
  method SurviveLoss(oc: Chunk, parts: nat, lost: nat, sp: bool) returns (part: Chunk, whole: Chunk)
    requires oc.Valid() && (parts == 4 || parts == 8) && lost <= parts
    modifies oc
    ensures part.Valid() && whole.Valid()
    ensures HoldsPiece(part.data, old(oc.data), parts, lost)
    ensures forall s: nat :: Block(whole.data, s) == Block(old(oc.data), s)
  {
    var srcs := SplitAll(oc, parts, sp);
    part, whole := RecoverAndJoin(WholeOf(oc, parts), srcs, lost, sp);
  }

  /** A data part built by replicate from the whole chunk and one built beside it hold the same. */
  method LocalAndRemote(oc: Chunk, parts: nat, p: nat, sp: bool) returns (local: Chunk?, remote: Chunk)
    requires oc.Valid() && (parts == 4 || parts == 8) && p < parts
    modifies oc
    ensures local != null && local.Valid() && remote.Valid()
    ensures forall q: nat :: Block(local.data, q) == Block(remote.data, q)
  {
    var status, pieces := ChunkSplit.Split(oc, 0, parts, {p}, sp);
    var w := WholeOf(oc, parts);
    local := pieces[p];
    PieceIntact(w, local, p);
    var x;
    status, x := Replicator.ReadSource(oc);
    status, remote := Replicator.Split(oc.k, x, p, parts, sp);
  }
}
