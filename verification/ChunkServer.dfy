/**
 The chunks of a server by id, and the operations that make, copy, split and delete them beside those
 on one chunk. Any sequence of operations answers like one on a map from ids to flat strings of bytes;
 so copies never share anything.
 */
module ChunkServer {
  import opened Checksums
  import opened ChunkData
  import opened ChunkStore
  import opened ChunkCopy
  import opened ChunkRefinement
  import opened Erasure
  import opened ChunkSplit

  const PART_STEP: nat := 0x0100_0000_0000_0000      // from the id of a part to that of the next

  type Flats = map<nat, Flat>

  datatype Command =
    | On(id: nat, op: Op)                            // hdd_write, hdd_read, hdd_int_truncate, or the cache dropped
    | Create(id: nat, version: nat)
    | Delete(id: nat, ver: nat)
    | Duplicate(id: nat, ver: nat, newver: nat, copyid: nat, copyver: nat, sp: bool)
    | DupTrunc(id: nat, ver: nat, newver: nat, copyid: nat, copyver: nat, length: nat, sp: bool)
    | Split(id: nat, ver: nat, parts: nat, missing: set<nat>, sp: bool)

  // ----- The flat model -----

  /** The id of a part of a chunk. */
  function PartId(id: nat, parts: nat, p: nat): nat {
    id + (if parts == 8 then 0x20 else 0x10) * PART_STEP + p * PART_STEP
  }

  lemma PartIdsDiffer(id: nat, parts: nat, p: nat, q: nat)
    requires p != q
    ensures PartId(id, parts, p) != PartId(id, parts, q)
  {
  }

  /** The first n blocks of a part. */
  function PieceBytes(src: seq<bv8>, parts: nat, p: nat, n: nat): (d: seq<bv8>)
    ensures |d| == n * BLOCK
  {
    if n == 0 then [] else PieceBytes(src, parts, p, n - 1) + PieceBlock(src, parts, p, n - 1)
  }

  function PieceOf(f: Flat, ver: nat, parts: nat, p: nat): Flat
    requires parts > 0
  {
    Flat(ver, PieceBytes(f.bytes, parts, p, PieceBlocks(parts, p, |f.bytes| / BLOCK)))
  }

  /** The missing ones of the first n parts of f are made. */
  function WithParts(m: Flats, f: Flat, cmd: Command, n: nat): Flats
    requires cmd.Split? && cmd.parts > 0
    decreases n
  {
    if n == 0 then m
    else
      var r := WithParts(m, f, cmd, n - 1);
      if n - 1 in cmd.missing then r[PartId(cmd.id, cmd.parts, n - 1) := PieceOf(f, cmd.ver, cmd.parts, n - 1)] else r
  }

  /** Parts that are missing have new ids. */
  predicate PartsNew(ids: set<nat>, cmd: Command)
    requires cmd.Split?
  {
    forall p :: 0 <= p <= cmd.parts && p in cmd.missing ==> PartId(cmd.id, cmd.parts, p) !in ids
  }

  function Found(m: Flats, id: nat, ver: nat): Status {
    if id !in m then NoChunk else if WrongVer(m[id], ver) then WrongVersion else Done
  }

  /** Why a command is refused. */
  function Verdict(k: Sums, m: Flats, cmd: Command): Status {
    match cmd
    case On(id, op) =>
      if op.Truncate? && op.length > CHUNK then WrongSize
      else if id !in m then NoChunk
      else StatusOf(k, m[id], op)
    case Create(id, _) => if id in m then ChunkExist else Done
    case Delete(id, ver) => Found(m, id, ver)
    case Duplicate(id, ver, _, copyid, _, _) =>
      if Found(m, id, ver) != Done then Found(m, id, ver) else if copyid in m then ChunkExist else Done
    case DupTrunc(id, ver, _, copyid, _, length, _) =>
      if length > CHUNK then WrongSize
      else if Found(m, id, ver) != Done then Found(m, id, ver)
      else if copyid in m then ChunkExist
      else Done
    case Split(id, ver, parts, missing, _) =>
      if (parts != 4 && parts != 8) || (exists p :: p in missing && p > parts) || id >= PART_STEP then Einval
      else if Found(m, id, ver) != Done then Found(m, id, ver)
      else if !PartsNew(m.Keys, cmd) then ChunkExist
      else Done
  }

  /** The source of a copy, with its version. */
  function Source(f: Flat, cmd: Command): Flat
    requires cmd.Duplicate? || cmd.DupTrunc?
  {
    f.(version := if cmd.newver != cmd.ver then cmd.newver else f.version)
  }

  /** The source of a copy with its new version, and the copy. */
  function Copied(m: Flats, cmd: Command, bytes: seq<bv8>): Flats
    requires (cmd.Duplicate? || cmd.DupTrunc?) && cmd.id in m
  {
    m[cmd.id := Source(m[cmd.id], cmd)]
     [cmd.copyid := Flat(if cmd.copyver == 0 then cmd.newver else cmd.copyver, bytes)]
  }

  function Outcome(k: Sums, m: Flats, cmd: Command): Flats {
    if Verdict(k, m, cmd) != Done then m
    else
      match cmd
      case On(id, op) => m[id := Effect(k, m[id], op)]
      case Create(id, version) => m[id := Flat(version, [])]
      case Delete(id, _) => m - {id}
      case Duplicate(id, _, _, _, _, _) => Copied(m, cmd, m[id].bytes)
      case DupTrunc(id, _, _, _, _, length, _) => Copied(m, cmd, Cut(m[id].bytes, length, BlocksOf(length) * BLOCK))
      case Split(id, _, parts, _, _) => WithParts(m, m[id], cmd, parts + 1)
  }

  function Reply(k: Sums, m: Flats, cmd: Command): Answer {
    if cmd.On? && cmd.id in m && Verdict(k, m, cmd) == Done then AnswerOf(k, m[cmd.id], cmd.op)
    else Answer(Verdict(k, m, cmd), [], 0)
  }

  /** An operation that is refused leaves its chunk as it is. */
  lemma OnOutcome(k: Sums, m: Flats, id: nat, op: Op)
    requires id in m && !(op.Truncate? && op.length > CHUNK)
    ensures Outcome(k, m, On(id, op)) == m[id := Effect(k, m[id], op)]
    ensures Reply(k, m, On(id, op)) == AnswerOf(k, m[id], op)
  {
    assert m[id := m[id]] == m;
  }

  function Outcomes(k: Sums, m: Flats, cmds: seq<Command>): Flats
    decreases |cmds|
  {
    if |cmds| == 0 then m else Outcomes(k, Outcome(k, m, cmds[0]), cmds[1..])
  }

  function Replies(k: Sums, m: Flats, cmds: seq<Command>): seq<Answer>
    decreases |cmds|
  {
    if |cmds| == 0 then [] else [Reply(k, m, cmds[0])] + Replies(k, Outcome(k, m, cmds[0]), cmds[1..])
  }

  /** Every missing part is there, under its own id. */
  lemma {:induction false} PartAdded(m: Flats, f: Flat, cmd: Command, n: nat, p: nat)
    requires cmd.Split? && cmd.parts > 0 && p < n && p in cmd.missing
    ensures var r, id := WithParts(m, f, cmd, n), PartId(cmd.id, cmd.parts, p);
            id in r && r[id] == PieceOf(f, cmd.ver, cmd.parts, p)
    decreases n
  {
    if p < n - 1 {
      PartAdded(m, f, cmd, n - 1, p);
      PartIdsDiffer(cmd.id, cmd.parts, p, n - 1);
    }
  }

  /** And nothing else changes. */
  lemma {:induction false} OthersKept(m: Flats, f: Flat, cmd: Command, n: nat, id: nat)
    requires cmd.Split? && cmd.parts > 0
    requires forall p: nat :: p < n && p in cmd.missing ==> PartId(cmd.id, cmd.parts, p) != id
    ensures var r := WithParts(m, f, cmd, n); (id in r <==> id in m) && (id in m ==> r[id] == m[id])
    decreases n
  {
    if n > 0 {
      OthersKept(m, f, cmd, n - 1, id);
    }
  }

  /** Whether a command may change or make a chunk. */
  predicate Names(cmd: Command, id: nat) {
    || (cmd.id == id && !cmd.Split?)
    || ((cmd.Duplicate? || cmd.DupTrunc?) && cmd.copyid == id)
    || (cmd.Split? && exists p :: 0 <= p <= cmd.parts && p in cmd.missing && PartId(cmd.id, cmd.parts, p) == id)
  }

  lemma OthersStay(k: Sums, m: Flats, cmd: Command, id: nat)
    requires !Names(cmd, id)
    ensures var r := Outcome(k, m, cmd); (id in r <==> id in m) && (id in m ==> r[id] == m[id])
  {
    if cmd.Split? && Verdict(k, m, cmd) == Done {
      OthersKept(m, m[cmd.id], cmd, cmd.parts + 1, id);
    }
  }

  /** A chunk is what it was after any commands that do not name it, whatever they do to its copies. */
  lemma {:induction false} Untouched(k: Sums, m: Flats, cmds: seq<Command>, id: nat)
    requires forall i :: 0 <= i < |cmds| ==> !Names(cmds[i], id)
    ensures var r := Outcomes(k, m, cmds); (id in r <==> id in m) && (id in m ==> r[id] == m[id])
    decreases |cmds|
  {
    if |cmds| > 0 {
      assert !Names(cmds[0], id);
      OthersStay(k, m, cmds[0], id);
      forall i | 0 <= i < |cmds| - 1 ensures !Names(cmds[1..][i], id) {
        assert !Names(cmds[i + 1], id);
      }
      Untouched(k, Outcome(k, m, cmds[0]), cmds[1..], id);
    }
  }

  lemma OneMoreBlock(data: seq<bv8>, m: nat)
    requires (m + 1) * BLOCK <= |data|
    ensures data[..(m + 1) * BLOCK] == data[..m * BLOCK] + Block(data, m)
  {
    BlockOfFile(data, m);
  }

  /** Data that holds a part is its blocks, one after the other. */
  lemma {:induction false} PiecesAre(data: seq<bv8>, src: seq<bv8>, parts: nat, p: nat, n: nat)
    requires HoldsPiece(data, src, parts, p) && n * BLOCK <= |data|
    ensures data[..n * BLOCK] == PieceBytes(src, parts, p, n)
  {
    if n > 0 {
      PiecesAre(data, src, parts, p, n - 1);
      assert Block(data, n - 1) == PieceBlock(src, parts, p, n - 1);
      OneMoreBlock(data, n - 1);
    }
  }

  /** A chunk that holds part p of a chunk with the contents of f. */
  lemma PieceView(w: Whole, f: Flat, c: Chunk, ver: nat, p: nat)
    requires w.Valid() && w.parts % 2 == 0 && Agrees(w.k, w.data, w.crc, w.blocks)
    requires f.bytes == w.data && IsPiece(w, c, p) && c.version == ver
    ensures c.Valid() && View(c) == PieceOf(f, ver, w.parts, p)
  {
    PieceIntact(w, c, p);
    PiecesAre(c.data, w.data, w.parts, p, c.blocks);
    assert c.data[..c.blocks * BLOCK] == c.data;
    assert |f.bytes| / BLOCK == w.blocks;
  }

  // ----- The server -----

  /** A chunk that is intact and holds f. */
  ghost predicate Stands(k: Sums, c: Chunk, f: Flat)
    reads c
  {
    c.k == k && c.Valid() && View(c) == f
  }

  /** An operation on one chunk. */
  method ExecuteOn(k: Sums, c: Chunk, op: Op, ghost f: Flat) returns (a: Answer)
    requires Stands(k, c, f)
    modifies c
    ensures Stands(k, c, Effect(k, f, op)) && a == AnswerOf(k, f, op)
  {
    a := Execute(c, op);
  }

  method DuplicateOf(k: Sums, oc: Chunk, cmd: Command, ghost f: Flat) returns (c: Chunk)
    requires Stands(k, oc, f) && cmd.Duplicate? && !WrongVer(f, cmd.ver)
    modifies oc
    ensures Stands(k, oc, Source(f, cmd)) && fresh(c)
    ensures Stands(k, c, Flat(if cmd.copyver == 0 then cmd.newver else cmd.copyver, f.bytes))
  {
    var status, copy := ChunkCopy.Duplicate(oc, cmd.ver, cmd.newver, cmd.copyver, cmd.sp);
    c := copy;
  }

  method DupTruncOf(k: Sums, oc: Chunk, cmd: Command, ghost f: Flat) returns (c: Chunk)
    requires Stands(k, oc, f) && cmd.DupTrunc? && !WrongVer(f, cmd.ver) && cmd.length <= CHUNK
    modifies oc
    ensures Stands(k, oc, Source(f, cmd)) && fresh(c)
    ensures Stands(k, c, Flat(if cmd.copyver == 0 then cmd.newver else cmd.copyver,
                              Cut(f.bytes, cmd.length, BlocksOf(cmd.length) * BLOCK)))
  {
    var status, copy := ChunkCopy.DupTrunc(oc, cmd.ver, cmd.newver, cmd.copyver, cmd.length, cmd.sp);
    c := copy;
    CopyAgrees(k, c.crc, c.data, oc.crc, oc.data, oc.blocks, cmd.length);
  }

  /** The parts that there are. */
  ghost function Made(pieces: seq<Chunk?>): set<Chunk> {
    set c: Chunk | c in pieces
  }

  ghost predicate Ready(k: Sums, c: Chunk?, f: Flat, cmd: Command, p: nat)
    requires cmd.Split? && cmd.parts > 0
    reads c
  {
    c != null && Stands(k, c, PieceOf(f, cmd.ver, cmd.parts, p))
  }

  method SplitOf(k: Sums, oc: Chunk, cmd: Command, ghost f: Flat) returns (pieces: seq<Chunk?>)
    requires Stands(k, oc, f) && cmd.Split? && !WrongVer(f, cmd.ver)
    requires (cmd.parts == 4 || cmd.parts == 8) && forall p :: p in cmd.missing ==> p <= cmd.parts
    modifies oc
    ensures Stands(k, oc, f) && |pieces| == cmd.parts + 1
    ensures forall p :: 0 <= p <= cmd.parts && p in cmd.missing ==> Ready(k, pieces[p], f, cmd, p) && pieces[p] in Made(pieces)
    ensures fresh(Made(pieces))
    ensures forall p, q :: 0 <= p < q <= cmd.parts && pieces[p] != null ==> pieces[p] != pieces[q]
  {
    var status;
    status, pieces := ChunkSplit.Split(oc, cmd.ver, cmd.parts, cmd.missing, cmd.sp);
    forall p | 0 <= p <= cmd.parts && p in cmd.missing ensures Ready(k, pieces[p], f, cmd, p) {
      PieceView(WholeOf(oc, cmd.parts), f, pieces[p], cmd.ver, p);
    }
  }

  class Server {
    const k: Sums
    var chunks: map<nat, Chunk>
    ghost var flats: Flats
    ghost var repr: set<Chunk>

    ghost predicate Valid()
      reads this, repr
    {
      && k.Lawful() && chunks.Keys == flats.Keys
      && (forall i :: i in chunks ==> chunks[i] in repr && Stands(k, chunks[i], flats[i]))
      && (forall i, j :: i in chunks && j in chunks && i != j ==> chunks[i] != chunks[j])
    }

    constructor (k: Sums)
      requires k.Lawful()
      ensures Valid() && this.k == k && flats == map[] && repr == {}
    {
      this.k := k;
      chunks, flats, repr := map[], map[], {};
    }

    /** A new chunk comes under a new id. */
    method Put(id: nat, c: Chunk, ghost f: Flat)
      requires Valid() && id !in chunks && Stands(k, c, f) && c !in repr
      modifies `chunks, `flats, `repr
      ensures Valid() && chunks == old(chunks)[id := c] && repr == old(repr) + {c}
      ensures flats == old(flats)[id := f]
    {
      chunks := chunks[id := c];
      flats := flats[id := f];
      repr := repr + {c};
    }

    /** A chunk was changed. */
    ghost method Changed(id: nat, f: Flat)
      requires k.Lawful() && chunks.Keys == flats.Keys && id in chunks && Stands(k, chunks[id], f)
      requires chunks[id] in repr && forall i :: i in chunks && i != id ==> chunks[i] in repr && Stands(k, chunks[i], flats[i])
      requires forall i, j :: i in chunks && j in chunks && i != j ==> chunks[i] != chunks[j]
      modifies `flats
      ensures Valid() && flats == old(flats)[id := f]
    {
      flats := flats[id := f];
    }

    method MakeOn(id: nat, op: Op) returns (a: Answer)
      requires Valid() && id in flats
      modifies `flats, repr
      ensures Valid() && flats == old(flats)[id := Effect(k, old(flats)[id], op)] && a == AnswerOf(k, old(flats)[id], op)
    {
      assert Stands(k, chunks[id], flats[id]);
      a := ExecuteOn(k, chunks[id], op, flats[id]);
      Changed(id, Effect(k, flats[id], op));
    }

    method DoOn(id: nat, op: Op) returns (a: Answer)
      requires Valid()
      modifies `flats, repr
      ensures Valid()
      ensures flats == Outcome(k, old(flats), On(id, op)) && a == Reply(k, old(flats), On(id, op))
    {
      if op.Truncate? && op.length > CHUNK {
        return Answer(WrongSize, [], 0);
      }
      if id !in chunks {
        return Answer(NoChunk, [], 0);
      }
      a := MakeOn(id, op);
      OnOutcome(k, old(flats), id, op);
    }

    method DoCreate(id: nat, version: nat) returns (status: Status)
      requires Valid()
      modifies this
      ensures Valid() && fresh(repr - old(repr))
      ensures status == Verdict(k, old(flats), Create(id, version)) && flats == Outcome(k, old(flats), Create(id, version))
    {
      if id in chunks {
        return ChunkExist;
      }
      var c := new Chunk.Create(k, version);
      Put(id, c, Flat(version, []));
      status := Done;
    }

    method Drop(id: nat)
      requires Valid()
      modifies this
      ensures Valid() && repr == old(repr) && flats == old(flats) - {id}
    {
      chunks := chunks - {id};
      flats := flats - {id};
    }

    method DoDelete(id: nat, ver: nat) returns (status: Status)
      requires Valid()
      modifies this
      ensures Valid() && repr == old(repr)
      ensures status == Verdict(k, old(flats), Delete(id, ver)) && flats == Outcome(k, old(flats), Delete(id, ver))
    {
      if id !in chunks {
        return NoChunk;
      }
      assert Stands(k, chunks[id], flats[id]);
      if chunks[id].version != ver && ver > 0 {
        return WrongVersion;
      }
      Drop(id);
      status := Done;
    }

    /** The checks before a copy is made. */
    method MayCopy(id: nat, ver: nat, copyid: nat) returns (status: Status)
      requires Valid()
      ensures status == if Found(flats, id, ver) != Done then Found(flats, id, ver) else if copyid in flats then ChunkExist else Done
    {
      if id !in chunks {
        return NoChunk;
      }
      assert Stands(k, chunks[id], flats[id]);
      if chunks[id].version != ver && ver > 0 {
        return WrongVersion;
      }
      status := if copyid in chunks then ChunkExist else Done;
    }

    method MakeDuplicate(cmd: Command)
      requires Valid() && cmd.Duplicate? && cmd.id in flats && !WrongVer(flats[cmd.id], cmd.ver) && cmd.copyid !in flats
      modifies this, repr
      ensures Valid() && fresh(repr - old(repr))
      ensures flats == Copied(old(flats), cmd, old(flats)[cmd.id].bytes)
    {
      var oc := chunks[cmd.id];
      ghost var f := flats[cmd.id];
      assert Stands(k, oc, f);
      var c := DuplicateOf(k, oc, cmd, f);
      Changed(cmd.id, Source(f, cmd));
      Put(cmd.copyid, c, Flat(if cmd.copyver == 0 then cmd.newver else cmd.copyver, f.bytes));
    }

    method DoDuplicate(cmd: Command) returns (status: Status)
      requires Valid() && cmd.Duplicate?
      modifies this, repr
      ensures Valid() && fresh(repr - old(repr))
      ensures status == Verdict(k, old(flats), cmd) && flats == Outcome(k, old(flats), cmd)
    {
      status := MayCopy(cmd.id, cmd.ver, cmd.copyid);
      if status == Done {
        MakeDuplicate(cmd);
      }
    }

    method MakeDupTrunc(cmd: Command)
      requires Valid() && cmd.DupTrunc? && cmd.id in flats && !WrongVer(flats[cmd.id], cmd.ver) && cmd.copyid !in flats
      requires cmd.length <= CHUNK
      modifies this, repr
      ensures Valid() && fresh(repr - old(repr))
      ensures flats == Copied(old(flats), cmd, Cut(old(flats)[cmd.id].bytes, cmd.length, BlocksOf(cmd.length) * BLOCK))
    {
      var oc := chunks[cmd.id];
      ghost var f := flats[cmd.id];
      assert Stands(k, oc, f);
      var c := DupTruncOf(k, oc, cmd, f);
      Changed(cmd.id, Source(f, cmd));
      Put(cmd.copyid, c, Flat(if cmd.copyver == 0 then cmd.newver else cmd.copyver,
                              Cut(f.bytes, cmd.length, BlocksOf(cmd.length) * BLOCK)));
    }

    method DoDupTrunc(cmd: Command) returns (status: Status)
      requires Valid() && cmd.DupTrunc?
      modifies this, repr
      ensures Valid() && fresh(repr - old(repr))
      ensures status == Verdict(k, old(flats), cmd) && flats == Outcome(k, old(flats), cmd)
    {
      if cmd.length > CHUNK {
        return WrongSize;
      }
      status := MayCopy(cmd.id, cmd.ver, cmd.copyid);
      if status == Done {
        MakeDupTrunc(cmd);
      }
    }

    /** Part p comes under its id, if it was missing. */
    method PutPart(cmd: Command, c: Chunk?, p: nat, ghost f: Flat, ghost m: Flats)
      requires Valid() && cmd.Split? && cmd.parts > 0 && p <= cmd.parts && PartsNew(m.Keys, cmd)
      requires flats == WithParts(m, f, cmd, p) && (p in cmd.missing ==> Ready(k, c, f, cmd, p) && c !in repr)
      modifies `chunks, `flats, `repr
      ensures Valid() && flats == WithParts(m, f, cmd, p + 1)
      ensures repr == if p in cmd.missing then old(repr) + {c} else old(repr)
    {
      if p in cmd.missing {
        StillNew(m, f, cmd, p);
        Put(PartId(cmd.id, cmd.parts, p), c, PieceOf(f, cmd.ver, cmd.parts, p));
      }
    }

    /** The parts that were made come under their ids. */
    method PutParts(cmd: Command, pieces: seq<Chunk?>, ghost f: Flat, ghost made: set<Chunk>)
      requires Valid() && cmd.Split? && cmd.parts > 0 && |pieces| == cmd.parts + 1 && PartsNew(flats.Keys, cmd)
      requires forall p :: 0 <= p <= cmd.parts && p in cmd.missing ==> Ready(k, pieces[p], f, cmd, p) && pieces[p] in made
      requires forall p, q :: 0 <= p < q <= cmd.parts && pieces[p] != null ==> pieces[p] != pieces[q]
      requires made !! repr
      modifies `chunks, `flats, `repr
      ensures Valid() && flats == WithParts(old(flats), f, cmd, cmd.parts + 1) && repr <= old(repr) + made
    {
      var i := 0;
      while i <= cmd.parts
        invariant 0 <= i <= cmd.parts + 1 && Valid() && flats == WithParts(old(flats), f, cmd, i)
        invariant repr <= old(repr) + made && old(repr) <= repr
        invariant forall p :: i <= p <= cmd.parts && p in cmd.missing ==> pieces[p] !in repr
      {
        PutPart(cmd, pieces[i], i, f, old(flats));
        i := i + 1;
      }
    }

    /** The checks before a chunk is split. */
    method MaySplit(cmd: Command) returns (status: Status)
      requires Valid() && cmd.Split?
      ensures status == Verdict(k, flats, cmd)
    {
      if (cmd.parts != 4 && cmd.parts != 8) || (exists p :: p in cmd.missing && p > cmd.parts) || cmd.id >= PART_STEP {
        return Einval;
      }
      if cmd.id !in chunks {
        return NoChunk;
      }
      assert Stands(k, chunks[cmd.id], flats[cmd.id]);
      if chunks[cmd.id].version != cmd.ver && cmd.ver > 0 {
        return WrongVersion;
      }
      status := if PartsNew(chunks.Keys, cmd) then Done else ChunkExist;
    }

    method SplitChunk(cmd: Command) returns (pieces: seq<Chunk?>)
      requires Valid() && cmd.Split? && cmd.id in flats && !WrongVer(flats[cmd.id], cmd.ver)
      requires (cmd.parts == 4 || cmd.parts == 8) && forall p :: p in cmd.missing ==> p <= cmd.parts
      modifies `flats, repr
      ensures Valid() && flats == old(flats) && |pieces| == cmd.parts + 1 && fresh(Made(pieces))
      ensures forall p :: 0 <= p <= cmd.parts && p in cmd.missing ==>
                Ready(k, pieces[p], flats[cmd.id], cmd, p) && pieces[p] in Made(pieces)
      ensures forall p, q :: 0 <= p < q <= cmd.parts && pieces[p] != null ==> pieces[p] != pieces[q]
    {
      ghost var f := flats[cmd.id];
      assert Stands(k, chunks[cmd.id], f);
      pieces := SplitOf(k, chunks[cmd.id], cmd, f);
      Changed(cmd.id, f);
      assert flats == old(flats);
    }

    method MakeSplit(cmd: Command)
      requires Valid() && cmd.Split? && cmd.id in flats && !WrongVer(flats[cmd.id], cmd.ver) && PartsNew(flats.Keys, cmd)
      requires (cmd.parts == 4 || cmd.parts == 8) && forall p :: p in cmd.missing ==> p <= cmd.parts
      modifies this, repr
      ensures Valid() && fresh(repr - old(repr))
      ensures flats == WithParts(old(flats), old(flats)[cmd.id], cmd, cmd.parts + 1)
    {
      var pieces := SplitChunk(cmd);
      PutParts(cmd, pieces, flats[cmd.id], Made(pieces));
    }

    method DoSplit(cmd: Command) returns (status: Status)
      requires Valid() && cmd.Split?
      modifies this, repr
      ensures Valid() && fresh(repr - old(repr))
      ensures status == Verdict(k, old(flats), cmd) && flats == Outcome(k, old(flats), cmd)
    {
      status := MaySplit(cmd);
      if status == Done {
        MakeSplit(cmd);
      }
    }

    /** Any command is the command on the flat model. */
    method Perform(cmd: Command) returns (a: Answer)
      requires Valid()
      modifies this, repr
      ensures Valid() && fresh(repr - old(repr))
      ensures flats == Outcome(k, old(flats), cmd) && a == Reply(k, old(flats), cmd)
    {
      if cmd.On? {
        a := DoOn(cmd.id, cmd.op);
        return;
      }
      var status;
      match cmd {
        case Create(id, version) => status := DoCreate(id, version);
        case Delete(id, ver) => status := DoDelete(id, ver);
        case Duplicate(_, _, _, _, _, _) => status := DoDuplicate(cmd);
        case DupTrunc(_, _, _, _, _, _, _) => status := DoDupTrunc(cmd);
        case Split(_, _, _, _, _) => status := DoSplit(cmd);
      }
      a := Answer(status, [], 0);
    }

    /** Any sequence of commands. */
    method PerformAll(cmds: seq<Command>) returns (answers: seq<Answer>)
      requires Valid()
      modifies this, repr
      ensures Valid() && fresh(repr - old(repr))
      ensures flats == Outcomes(k, old(flats), cmds) && answers == Replies(k, old(flats), cmds)
      decreases |cmds|
    {
      answers := [];
      if |cmds| > 0 {
        var a := Perform(cmds[0]);
        var rest := PerformAll(cmds[1..]);
        answers := [a] + rest;
      }
    }
  }

  /** The ids of the parts still to be made are new. */
  lemma StillNew(m: Flats, f: Flat, cmd: Command, i: nat)
    requires cmd.Split? && cmd.parts > 0 && i <= cmd.parts && i in cmd.missing && PartsNew(m.Keys, cmd)
    ensures PartId(cmd.id, cmd.parts, i) !in WithParts(m, f, cmd, i)
  {
    var id := PartId(cmd.id, cmd.parts, i);
    forall p: nat | p < i ensures PartId(cmd.id, cmd.parts, p) != id {
    }
    OthersKept(m, f, cmd, i, id);
  }
}
