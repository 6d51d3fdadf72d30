/**
 A chunk with its cache, its two checksum tables and its sparse writes behaves, over any sequence of
 operations, like a version number and a flat string of bytes.
 */
module ChunkRefinement {
  import opened Checksums
  import opened ChunkData
  import opened ChunkStore

  /** The flat model: bytes past the end read as zeros. */
  datatype Flat = Flat(version: nat, bytes: seq<bv8>)

  datatype Op =
    | Write(ver: nat, b: nat, buf: seq<bv8>, off: nat, sum: bv32, sparsify: bool)
    | Read(ver: nat, b: nat, off: nat, size: nat)
    | Truncate(ver: nat, newver: nat, length: nat)
    | Reopen                                       // the table goes to disk, the caches are dropped and read back

  datatype Answer = Answer(status: Status, buf: seq<bv8>, sum: bv32)

  predicate WrongVer(f: Flat, ver: nat) {
    f.version != ver && ver > 0
  }

  /** Why a range within a block is refused. */
  function RangeStatus(b: nat, off: nat, size: nat): Status {
    if b >= BLOCKS then BnumTooBig
    else if size > BLOCK then WrongSize
    else if off >= BLOCK || off + size > BLOCK then WrongOffset
    else Done
  }

  /** The whole blocks that hold n bytes at least, and block b. */
  function Reach(n: nat, b: nat): nat {
    if (b + 1) * BLOCK > n then (b + 1) * BLOCK else n
  }

  function StatusOf(k: Sums, f: Flat, op: Op): Status {
    match op
    case Write(ver, b, buf, off, sum, _) =>
      if WrongVer(f, ver) then WrongVersion
      else if RangeStatus(b, off, |buf|) != Done then RangeStatus(b, off, |buf|)
      else if sum != k.crc(buf) then CrcError
      else Done
    case Read(ver, b, off, size) => if WrongVer(f, ver) then WrongVersion else RangeStatus(b, off, size)
    case Truncate(ver, newver, length) =>
      if length > CHUNK then WrongSize else if WrongVer(f, ver) then WrongVersion else Done
    case Reopen => Done
  }

  /** What an operation does to the flat model. */
  function Effect(k: Sums, f: Flat, op: Op): Flat {
    if StatusOf(k, f, op) != Done then f
    else
      match op
      case Write(_, b, buf, off, _, _) => f.(bytes := Overlay(f.bytes, Reach(|f.bytes|, b), b * BLOCK + off, buf))
      case Truncate(_, newver, length) => Flat(newver, Cut(f.bytes, length, BlocksOf(length) * BLOCK))
      case _ => f
  }

  /** And what it answers. */
  function AnswerOf(k: Sums, f: Flat, op: Op): Answer {
    var status := StatusOf(k, f, op);
    if status == Done && op.Read? then
      var buf := Block(f.bytes, op.b)[op.off..op.off + op.size];
      Answer(Done, buf, k.crc(buf))
    else Answer(status, [], 0)
  }

  function Effects(k: Sums, f: Flat, ops: seq<Op>): Flat
    decreases |ops|
  {
    if |ops| == 0 then f else Effects(k, Effect(k, f, ops[0]), ops[1..])
  }

  function Answers(k: Sums, f: Flat, ops: seq<Op>): seq<Answer>
    decreases |ops|
  {
    if |ops| == 0 then [] else [AnswerOf(k, f, ops[0])] + Answers(k, Effect(k, f, ops[0]), ops[1..])
  }

  /** On the flat model a write changes its range and nothing else, and a truncation cuts. */
  lemma EffectBytes(k: Sums, f: Flat, op: Op, i: nat)
    requires StatusOf(k, f, op) == Done
    ensures op.Write? ==>
              var pos := op.b * BLOCK + op.off;
              ByteAt(Effect(k, f, op).bytes, i) == if pos <= i < pos + |op.buf| then op.buf[i - pos] else ByteAt(f.bytes, i)
    ensures op.Truncate? ==> ByteAt(Effect(k, f, op).bytes, i) == if i < op.length then ByteAt(f.bytes, i) else 0
    ensures op.Read? || op.Reopen? ==> Effect(k, f, op) == f
  {
    if op.Truncate? {
      assert op.length <= BlocksOf(op.length) * BLOCK;
    }
  }

  function View(c: Chunk): Flat
    reads c
  {
    Flat(c.version, c.data)
  }

  method DoWrite(c: Chunk, op: Op) returns (a: Answer)
    requires c.Valid() && op.Write?
    modifies c
    ensures c.Valid() && View(c) == Effect(c.k, old(View(c)), op) && a == AnswerOf(c.k, old(View(c)), op)
  {
    var status := c.Write(op.ver, op.b, op.buf, op.off, op.sum, op.sparsify);
    a := Answer(status, [], 0);
  }

  method DoRead(c: Chunk, op: Op) returns (a: Answer)
    requires c.Valid() && op.Read?
    modifies c
    ensures c.Valid() && View(c) == Effect(c.k, old(View(c)), op) && a == AnswerOf(c.k, old(View(c)), op)
  {
    var status, buf, sum := c.Read(op.ver, op.b, op.off, op.size);
    a := if status == Done then Answer(Done, buf, sum) else Answer(status, [], 0);
  }

  method DoTruncate(c: Chunk, op: Op) returns (a: Answer)
    requires c.Valid() && op.Truncate?
    modifies c
    ensures c.Valid() && View(c) == Effect(c.k, old(View(c)), op) && a == AnswerOf(c.k, old(View(c)), op)
  {
    var status := c.Truncate(op.ver, op.newver, op.length);
    a := Answer(status, [], 0);
  }

  /** Any operation on an intact chunk is the operation on the flat model. */
  method Execute(c: Chunk, op: Op) returns (a: Answer)
    requires c.Valid()
    modifies c
    ensures c.Valid() && View(c) == Effect(c.k, old(View(c)), op) && a == AnswerOf(c.k, old(View(c)), op)
  {
    match op
    case Write(_, _, _, _, _, _) => a := DoWrite(c, op);
    case Read(_, _, _, _) => a := DoRead(c, op);
    case Truncate(_, _, _) => a := DoTruncate(c, op);
    case Reopen =>
      c.IoEnd();
      var status := c.Reload();
      a := Answer(status, [], 0);
  }

  /** Any sequence of operations. */
  method ExecuteAll(c: Chunk, ops: seq<Op>) returns (answers: seq<Answer>)
    requires c.Valid()
    modifies c
    ensures c.Valid() && View(c) == Effects(c.k, old(View(c)), ops) && answers == Answers(c.k, old(View(c)), ops)
  {
    answers := [];
    if |ops| > 0 {
      var a := Execute(c, ops[0]);
      var rest := ExecuteAll(c, ops[1..]);
      answers := [a] + rest;
    }
  }
}
