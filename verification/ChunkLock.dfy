/**
 The records of chunks and their locks in hddspacemgr.c: hdd_chunk_get, hdd_chunk_tryfind,
 hdd_chunk_release and hdd_chunk_delete, each atomic under the hash lock up to the point where it
 waits. A freed record is taken out of the memory; any thread that still pointed at it would show.
 */
module ChunkLock {
  import opened Distinctness
  import opened Options
  import opened Tally

  type Pointer = nat

  datatype ChunkState = Avail | Locked | Deleted

  /** chunk: its id, its state, and the condition object that threads wait on, if any do. */
  datatype Chunk = Chunk(chunkid: nat, state: ChunkState, ccond: Option<nat>)

  /** CHMODE_*: whether an existing chunk is wanted, a new one, or either. */
  datatype Mode = ExistingOnly | NewOnly | NewOrExisting

  /** What a thread has to do with a chunk. */
  datatype Role = Holds(c: Pointer) | Awaits(c: Pointer)

  datatype State = State(
    table: seq<Pointer>,             // the hash chains, first to last
    mem: map<Pointer, Chunk>,        // allocated records
    conds: map<nat, nat>,            // condition objects ever allocated, and their waiters (wcnt)
    threads: map<nat, Role>,         // by request
    modes: map<nat, Mode>,
    awake: set<nat>,                 // waiting threads that were signalled and have not run yet
    next: nat)                       // requests ever made

  const START: State := State([], map[], map[], map[], map[], {}, 0)

  /** The search along a hash chain. */
  function Find(table: seq<Pointer>, mem: map<Pointer, Chunk>, chunkid: nat): Option<Pointer> {
    if |table| == 0 then None
    else if table[0] in mem && mem[table[0]].chunkid == chunkid then Some(table[0])
    else Find(table[1..], mem, chunkid)
  }

  /** hdd_chunk_hash_remove. */
  function Unlink(table: seq<Pointer>, c: Pointer): seq<Pointer> {
    if |table| == 0 then []
    else if table[0] == c then table[1..]
    else [table[0]] + Unlink(table[1..], c)
  }

  function Take(s: State, c: Pointer, req: nat): State
    requires c in s.mem
  {
    s.(mem := s.mem[c := s.mem[c].(state := Locked)], threads := s.threads[req := Holds(c)])
  }

  function Free(s: State, c: Pointer): State {
    s.(mem := s.mem - {c}, table := Unlink(s.table, c))
  }

  /** Joins the waiters of a chunk; the first of them brings an unused condition object. */
  function Wait(s: State, c: Pointer, req: nat, idle: nat): State
    requires c in s.mem
  {
    var cc := if s.mem[c].ccond.Some? then s.mem[c].ccond.value else idle;
    var wcnt := if cc in s.conds then s.conds[cc] else 0;
    s.(mem := s.mem[c := s.mem[c].(ccond := Some(cc))],
       conds := s.conds[cc := wcnt + 1],
       threads := s.threads[req := Awaits(c)])
  }

  /** Leaves the waiters of a chunk; the last of them gives the condition object back. */
  function Leave(s: State, c: Pointer, req: nat): State
    requires c in s.mem && s.mem[c].ccond.Some? && s.mem[c].ccond.value in s.conds && s.conds[s.mem[c].ccond.value] > 0
  {
    var cc := s.mem[c].ccond.value;
    s.(mem := if s.conds[cc] == 1 then s.mem[c := s.mem[c].(ccond := None)] else s.mem,
       conds := s.conds[cc := s.conds[cc] - 1],
       threads := s.threads - {req}, awake := s.awake - {req})
  }

  predicate WaitsFor(s: State, c: Pointer, req: nat) {
    req in s.threads && s.threads[req] == Awaits(c)
  }

  /** pthread_cond_signal: one of the threads that are blocked wakes up. */
  function Signal(s: State, c: Pointer, chosen: nat): State {
    if WaitsFor(s, c, chosen) then s.(awake := s.awake + {chosen}) else s
  }

  /** The choice of a signal: one of those blocked, whenever there is one. */
  predicate Chooses(s: State, c: Pointer, chosen: nat) {
    (exists r :: r in s.threads && WaitsFor(s, c, r) && r !in s.awake) ==> WaitsFor(s, c, chosen) && chosen !in s.awake
  }

  /** One round of the loop of hdd_chunk_get. */
  function Look(s: State, c: Pointer, req: nat, idle: nat, chosen: nat): State
    requires c in s.mem && req in s.modes
  {
    match s.mem[c].state
    case Avail => Take(s, c, req)
    case Deleted =>
      if s.modes[req] != ExistingOnly then Take(s, c, req)
      else if s.mem[c].ccond == None then Free(s, c)
      else Signal(s, c, chosen)
    case Locked => Wait(s, c, req, idle)
  }

  datatype Step =
    | Get(chunkid: nat, mode: Mode, ptr: Pointer, idle: nat, chosen: nat)
    | TryFind(chunkid: nat)
    | Wake(req: nat, idle: nat, chosen: nat)     // a waiting thread runs on, signalled or not
    | GiveUp(req: nat)                           // or has waited too long, signalled or not
    | Release(req: nat, chosen: nat)
    | Delete(req: nat, chosen: nat)

  /** An unused condition object, or a new one. */
  predicate Idle(s: State, cc: nat) {
    cc in s.conds ==> s.conds[cc] == 0
  }

  function Create(s: State, chunkid: nat, ptr: Pointer, req: nat): State {
    s.(mem := s.mem[ptr := Chunk(chunkid, Locked, None)], table := [ptr] + s.table,
       threads := s.threads[req := Holds(ptr)])
  }

  /** A request is made. */
  function Asked(s: State, mode: Mode): State {
    s.(next := s.next + 1, modes := s.modes[s.next := mode])
  }

  /** What hdd_chunk_get does with a record it found. */
  function GetFound(s: State, c: Pointer, mode: Mode, req: nat, idle: nat, chosen: nat): State
    requires req in s.modes
  {
    if c !in s.mem || (mode == NewOnly && s.mem[c].state != Deleted) then s else Look(s, c, req, idle, chosen)
  }

  function GetChunk(s: State, chunkid: nat, mode: Mode, ptr: Pointer, idle: nat, chosen: nat): State {
    match Find(s.table, s.mem, chunkid)
    case None => if mode != ExistingOnly then Create(Asked(s, mode), chunkid, ptr, s.next) else Asked(s, mode)
    case Some(c) => GetFound(Asked(s, mode), c, mode, s.next, idle, chosen)
  }

  predicate GetChooses(s: State, chunkid: nat, chosen: nat) {
    match Find(s.table, s.mem, chunkid)
    case None => true
    case Some(c) => Chooses(s, c, chosen)
  }

  function TryFindChunk(s: State, chunkid: nat): State {
    match Find(s.table, s.mem, chunkid)
    case None => s
    case Some(c) =>
      if c in s.mem && s.mem[c].state == Avail then Take(s.(next := s.next + 1), c, s.next) else s
  }

  predicate Waits(s: State, req: nat) {
    && req in s.threads && s.threads[req].Awaits? && req in s.modes
    && var c := s.threads[req].c;
       && c in s.mem && s.mem[c].ccond.Some? && s.mem[c].ccond.value in s.conds && s.conds[s.mem[c].ccond.value] > 0
  }

  function WakeUp(s: State, req: nat, idle: nat, chosen: nat): State
    requires Waits(s, req)
  {
    var c := s.threads[req].c;
    Look(Leave(s, c, req), c, req, idle, chosen)
  }

  function ReleaseChunk(s: State, req: nat, chosen: nat): State
    requires req in s.threads && s.threads[req].Holds? && s.threads[req].c in s.mem
  {
    var c := s.threads[req].c;
    Signal(s.(mem := if s.mem[c].state == Locked then s.mem[c := s.mem[c].(state := Avail)] else s.mem,
              threads := s.threads - {req}), c, chosen)
  }

  function DeleteChunk(s: State, req: nat, chosen: nat): State
    requires req in s.threads && s.threads[req].Holds? && s.threads[req].c in s.mem
  {
    var c := s.threads[req].c;
    var t := s.(threads := s.threads - {req});
    if s.mem[c].ccond.Some? then Signal(t.(mem := s.mem[c := s.mem[c].(state := Deleted)]), c, chosen) else Free(t, c)
  }

  predicate CanWake(s: State, req: nat, idle: nat, chosen: nat) {
    && Waits(s, req)
    && var c := s.threads[req].c;
       Idle(Leave(s, c, req), idle) && Chooses(Leave(s, c, req), c, chosen)
  }

  predicate Has(s: State, req: nat) {
    req in s.threads && s.threads[req].Holds? && s.threads[req].c in s.mem
  }

  function Next(s: State, step: Step): State {
    match step
    case Get(chunkid, mode, ptr, idle, chosen) =>
      if ptr !in s.mem && Idle(s, idle) && GetChooses(s, chunkid, chosen) then
        GetChunk(s, chunkid, mode, ptr, idle, chosen)
      else s
    case TryFind(chunkid) => TryFindChunk(s, chunkid)
    case Wake(req, idle, chosen) => if CanWake(s, req, idle, chosen) then WakeUp(s, req, idle, chosen) else s
    case GiveUp(req) => if Waits(s, req) then Leave(s, s.threads[req].c, req) else s
    case Release(req, chosen) =>
      if Has(s, req) && Chooses(s, s.threads[req].c, chosen) then ReleaseChunk(s, req, chosen) else s
    case Delete(req, chosen) =>
      if Has(s, req) && Chooses(s, s.threads[req].c, chosen) then DeleteChunk(s, req, chosen) else s
  }

  function Run(steps: seq<Step>): State {
    if |steps| == 0 then START else Next(Run(steps[..|steps| - 1]), steps[|steps| - 1])
  }

  // ----- Invariants -----

  /** The table holds every record once, and no two records have the same id. */
  ghost predicate TableInv(s: State) {
    && (forall c :: c in s.table <==> c in s.mem)
    && Distinct(s.table)
    && (forall c, d :: c in s.mem && d in s.mem && s.mem[c].chunkid == s.mem[d].chunkid ==> c == d)
  }

  /** A record is locked exactly when one thread holds it, and its waiters are counted. */
  ghost predicate ChunkInv(s: State, c: Pointer) {
    if c in s.mem then
      && Count(s.threads, Holds(c)) == (if s.mem[c].state == Locked then 1 else 0)
      && match s.mem[c].ccond
         case None => Count(s.threads, Awaits(c)) == 0
         case Some(cc) => cc in s.conds && s.conds[cc] == Count(s.threads, Awaits(c)) > 0
    else Count(s.threads, Holds(c)) == 0 && Count(s.threads, Awaits(c)) == 0
  }

  /** No two chunks share a condition object. */
  ghost predicate CondInv(s: State) {
    forall c, d :: c in s.mem && d in s.mem && c != d && s.mem[c].ccond.Some? ==> s.mem[c].ccond != s.mem[d].ccond
  }

  ghost predicate RequestInv(s: State) {
    && (forall r :: r in s.threads ==> r < s.next)
    && (forall r :: r in s.threads && s.threads[r].Awaits? ==> r in s.modes)
    && (forall r :: r in s.awake ==> r in s.threads && s.threads[r].Awaits?)
  }

  ghost predicate Inv(s: State) {
    TableInv(s) && CondInv(s) && RequestInv(s) && forall c :: ChunkInv(s, c)
  }

  lemma {:induction false} FindLaw(table: seq<Pointer>, mem: map<Pointer, Chunk>, chunkid: nat)
    ensures match Find(table, mem, chunkid)
            case Some(c) => c in table && c in mem && mem[c].chunkid == chunkid
            case None => forall c :: c in table && c in mem ==> mem[c].chunkid != chunkid
  {
    if |table| > 0 {
      var first, rest := table[0], table[1..];
      assert table == [first] + rest;
      FindLaw(rest, mem, chunkid);
    }
  }

  lemma {:induction false} UnlinkLaw(table: seq<Pointer>, c: Pointer)
    requires Distinct(table)
    ensures forall d :: d in Unlink(table, c) <==> d in table && d != c
    ensures Distinct(Unlink(table, c))
    ensures c in table ==> |Unlink(table, c)| + 1 == |table|
  {
    if |table| > 0 {
      var first, rest := table[0], table[1..];
      assert table == [first] + rest;
      assert first !in rest;
      UnlinkLaw(rest, c);
      if first != c {
        PrependDistinct(first, Unlink(rest, c));
      }
    }
  }

  // ----- What the parts of the operations keep -----

  /** Chunk d is as it was, with as many threads. */
  ghost predicate Untouched(s: State, t: State, d: Pointer) {
    && Count(t.threads, Holds(d)) == Count(s.threads, Holds(d))
    && Count(t.threads, Awaits(d)) == Count(s.threads, Awaits(d))
    && (d in t.mem <==> d in s.mem)
    && (d in s.mem ==> t.mem[d] == s.mem[d])
    && (d in s.mem && s.mem[d].ccond.Some? && s.mem[d].ccond.value in s.conds ==>
          s.mem[d].ccond.value in t.conds && t.conds[s.mem[d].ccond.value] == s.conds[s.mem[d].ccond.value])
  }

  lemma OneChanged(s: State, t: State, c: Pointer)
    requires Inv(s) && TableInv(t) && CondInv(t) && RequestInv(t) && ChunkInv(t, c)
    requires forall d :: d != c ==> Untouched(s, t, d)
    ensures Inv(t)
  {
    forall d ensures ChunkInv(t, d) {
      assert ChunkInv(s, d);
      assert d != c ==> Untouched(s, t, d);
    }
  }

  lemma Joins(m: map<nat, Role>, req: nat, role: Role, q: Role)
    requires req !in m
    ensures Count(m[req := role], q) == Count(m, q) + if role == q then 1 else 0
  {
    Moved(m, req, role, q);
  }

  lemma TakeKeeps(s: State, c: Pointer, req: nat)
    requires Inv(s) && c in s.mem && s.mem[c].state != Locked && req !in s.threads && req < s.next
    ensures Inv(Take(s, c, req))
  {
    var t := Take(s, c, req);
    assert ChunkInv(s, c);
    Joins(s.threads, req, Holds(c), Holds(c));
    Joins(s.threads, req, Holds(c), Awaits(c));
    forall d | d != c ensures Untouched(s, t, d) {
      Joins(s.threads, req, Holds(c), Holds(d));
      Joins(s.threads, req, Holds(c), Awaits(d));
      assert ChunkInv(s, d);
    }
    OneChanged(s, t, c);
  }

  lemma CreateKeeps(s: State, chunkid: nat, ptr: Pointer, req: nat)
    requires Inv(s) && ptr !in s.mem && req !in s.threads && req < s.next
    requires forall c :: c in s.mem ==> s.mem[c].chunkid != chunkid
    ensures Inv(Create(s, chunkid, ptr, req))
  {
    var t := Create(s, chunkid, ptr, req);
    assert ChunkInv(s, ptr);
    Joins(s.threads, req, Holds(ptr), Holds(ptr));
    Joins(s.threads, req, Holds(ptr), Awaits(ptr));
    forall d | d != ptr ensures Untouched(s, t, d) {
      Joins(s.threads, req, Holds(ptr), Holds(d));
      Joins(s.threads, req, Holds(ptr), Awaits(d));
    }
    OneChanged(s, t, ptr);
  }

  /** A record is freed when nobody holds it and nobody waits for it. */
  lemma FreeKeeps(s: State, c: Pointer)
    requires Inv(s) && c in s.mem && s.mem[c].ccond == None && s.mem[c].state != Locked
    ensures Inv(Free(s, c))
  {
    var t := Free(s, c);
    UnlinkLaw(s.table, c);
    assert ChunkInv(s, c);
    OneChanged(s, t, c);
  }

  lemma WaitKeeps(s: State, c: Pointer, req: nat, idle: nat)
    requires Inv(s) && c in s.mem && req !in s.threads && req < s.next && req in s.modes && Idle(s, idle)
    ensures Inv(Wait(s, c, req, idle))
  {
    var t := Wait(s, c, req, idle);
    assert ChunkInv(s, c);
    Joins(s.threads, req, Awaits(c), Holds(c));
    Joins(s.threads, req, Awaits(c), Awaits(c));
    forall d | d != c ensures Untouched(s, t, d) {
      Joins(s.threads, req, Awaits(c), Holds(d));
      Joins(s.threads, req, Awaits(c), Awaits(d));
      assert ChunkInv(s, d);
    }
    forall d | d in s.mem && d != c && s.mem[d].ccond.Some? ensures s.mem[d].ccond != t.mem[c].ccond {
      assert ChunkInv(s, d);
    }
    OneChanged(s, t, c);
  }

  lemma LeaveKeeps(s: State, req: nat)
    requires Inv(s) && Waits(s, req)
    ensures Inv(Leave(s, s.threads[req].c, req))
  {
    var c := s.threads[req].c;
    var t := Leave(s, c, req);
    assert ChunkInv(s, c);
    Gone(s.threads, req, Holds(c));
    Gone(s.threads, req, Awaits(c));
    forall d | d != c ensures Untouched(s, t, d) {
      Gone(s.threads, req, Holds(d));
      Gone(s.threads, req, Awaits(d));
      assert ChunkInv(s, d);
    }
    OneChanged(s, t, c);
  }

  lemma SignalKeeps(s: State, c: Pointer, chosen: nat)
    requires Inv(s)
    ensures Inv(Signal(s, c, chosen))
  {
    forall d ensures ChunkInv(Signal(s, c, chosen), d) {
      assert ChunkInv(s, d);
    }
  }

  lemma LookKeeps(s: State, c: Pointer, req: nat, idle: nat, chosen: nat)
    requires Inv(s) && c in s.mem && req !in s.threads && req < s.next && req in s.modes && Idle(s, idle)
    ensures Inv(Look(s, c, req, idle, chosen))
  {
    match s.mem[c].state
    case Avail => TakeKeeps(s, c, req);
    case Deleted =>
      if s.modes[req] != ExistingOnly {
        TakeKeeps(s, c, req);
      } else if s.mem[c].ccond == None {
        FreeKeeps(s, c);
      } else {
        SignalKeeps(s, c, chosen);
      }
    case Locked => WaitKeeps(s, c, req, idle);
  }

  // ----- What the operations keep -----

  lemma RequestKeeps(s: State, mode: Mode)
    requires Inv(s)
    ensures Inv(Asked(s, mode)) && s.next !in Asked(s, mode).threads
  {
    forall c ensures ChunkInv(Asked(s, mode), c) {
      assert ChunkInv(s, c);
    }
  }

  /** The search fails exactly when there is no record with the id. */
  lemma NoneFound(s: State, chunkid: nat)
    requires TableInv(s) && Find(s.table, s.mem, chunkid) == None
    ensures forall c :: c in s.mem ==> s.mem[c].chunkid != chunkid
  {
    FindLaw(s.table, s.mem, chunkid);
  }

  lemma GetKeeps(s: State, chunkid: nat, mode: Mode, ptr: Pointer, idle: nat, chosen: nat)
    requires Inv(s) && ptr !in s.mem && Idle(s, idle)
    ensures Inv(GetChunk(s, chunkid, mode, ptr, idle, chosen))
  {
    RequestKeeps(s, mode);
    match Find(s.table, s.mem, chunkid)
    case None =>
      NoneFound(s, chunkid);
      CreateKeeps(Asked(s, mode), chunkid, ptr, s.next);
    case Some(c) =>
      if c in s.mem { LookKeeps(Asked(s, mode), c, s.next, idle, chosen); }
  }

  lemma TryFindKeeps(s: State, chunkid: nat)
    requires Inv(s)
    ensures Inv(TryFindChunk(s, chunkid))
  {
    FindLaw(s.table, s.mem, chunkid);
    match Find(s.table, s.mem, chunkid)
    case None =>
    case Some(c) =>
      if s.mem[c].state == Avail {
        var t := s.(next := s.next + 1);
        forall d ensures ChunkInv(t, d) {
          assert ChunkInv(s, d);
        }
        TakeKeeps(t, c, s.next);
      }
  }

  lemma WakeKeeps(s: State, req: nat, idle: nat, chosen: nat)
    requires Inv(s) && CanWake(s, req, idle, chosen)
    ensures Inv(WakeUp(s, req, idle, chosen))
  {
    LeaveKeeps(s, req);
    LookKeeps(Leave(s, s.threads[req].c, req), s.threads[req].c, req, idle, chosen);
  }

  /** A thread that lets a chunk go was its only holder. */
  lemma HolderLeaves(s: State, req: nat)
    requires Inv(s) && Has(s, req)
    ensures var c := s.threads[req].c;
            && s.mem[c].state == Locked
            && Count(s.threads - {req}, Holds(c)) == 0
            && Count(s.threads - {req}, Awaits(c)) == Count(s.threads, Awaits(c))
    ensures forall d :: d != s.threads[req].c ==>
              && Count(s.threads - {req}, Holds(d)) == Count(s.threads, Holds(d))
              && Count(s.threads - {req}, Awaits(d)) == Count(s.threads, Awaits(d))
  {
    var c := s.threads[req].c;
    assert ChunkInv(s, c);
    Counted(s.threads, req);
    Gone(s.threads, req, Holds(c));
    Gone(s.threads, req, Awaits(c));
    forall d | d != c ensures Count(s.threads - {req}, Holds(d)) == Count(s.threads, Holds(d))
                           && Count(s.threads - {req}, Awaits(d)) == Count(s.threads, Awaits(d)) {
      Gone(s.threads, req, Holds(d));
      Gone(s.threads, req, Awaits(d));
    }
  }

  lemma ReleaseKeeps(s: State, req: nat, chosen: nat)
    requires Inv(s) && Has(s, req)
    ensures Inv(ReleaseChunk(s, req, chosen))
  {
    var c := s.threads[req].c;
    var t := s.(mem := s.mem[c := s.mem[c].(state := Avail)], threads := s.threads - {req});
    HolderLeaves(s, req);
    assert ChunkInv(s, c);
    forall d | d != c ensures Untouched(s, t, d) {
      assert ChunkInv(s, d);
    }
    OneChanged(s, t, c);
    SignalKeeps(t, c, chosen);
  }

  /** Deleted with threads waiting: the record stays for them. */
  lemma MarkKeeps(s: State, req: nat)
    requires Inv(s) && Has(s, req) && s.mem[s.threads[req].c].ccond.Some?
    ensures var c := s.threads[req].c;
            Inv(s.(threads := s.threads - {req}, mem := s.mem[c := s.mem[c].(state := Deleted)]))
  {
    var c := s.threads[req].c;
    var t := s.(threads := s.threads - {req}, mem := s.mem[c := s.mem[c].(state := Deleted)]);
    HolderLeaves(s, req);
    assert ChunkInv(s, c);
    forall d | d != c ensures Untouched(s, t, d) {
      assert ChunkInv(s, d);
    }
    OneChanged(s, t, c);
  }

  lemma DropKeeps(s: State, req: nat)
    requires Inv(s) && Has(s, req) && s.mem[s.threads[req].c].ccond == None
    ensures Inv(Free(s.(threads := s.threads - {req}), s.threads[req].c))
  {
    var c := s.threads[req].c;
    var t := Free(s.(threads := s.threads - {req}), c);
    HolderLeaves(s, req);
    UnlinkLaw(s.table, c);
    assert ChunkInv(s, c);
    forall d | d != c ensures Untouched(s, t, d) {
      assert ChunkInv(s, d);
    }
    OneChanged(s, t, c);
  }

  lemma DeleteKeeps(s: State, req: nat, chosen: nat)
    requires Inv(s) && Has(s, req)
    ensures Inv(DeleteChunk(s, req, chosen))
  {
    var c := s.threads[req].c;
    if s.mem[c].ccond.Some? {
      MarkKeeps(s, req);
      SignalKeeps(s.(threads := s.threads - {req}, mem := s.mem[c := s.mem[c].(state := Deleted)]), c, chosen);
    } else {
      DropKeeps(s, req);
    }
  }

  lemma StepKeeps(s: State, step: Step)
    requires Inv(s)
    ensures Inv(Next(s, step))
  {
    match step
    case Get(chunkid, mode, ptr, idle, chosen) =>
      if ptr !in s.mem && Idle(s, idle) { GetKeeps(s, chunkid, mode, ptr, idle, chosen); }
    case TryFind(chunkid) => TryFindKeeps(s, chunkid);
    case Wake(req, idle, chosen) => if CanWake(s, req, idle, chosen) { WakeKeeps(s, req, idle, chosen); }
    case GiveUp(req) => if Waits(s, req) { LeaveKeeps(s, req); }
    case Release(req, chosen) => if Has(s, req) { ReleaseKeeps(s, req, chosen); }
    case Delete(req, chosen) => if Has(s, req) { DeleteKeeps(s, req, chosen); }
  }

  lemma {:induction false} RunKeeps(steps: seq<Step>)
    ensures Inv(Run(steps))
  {
    if |steps| == 0 {
      forall c ensures ChunkInv(START, c) {
        Empty(START.threads, Holds(c));
        Empty(START.threads, Awaits(c));
      }
    } else {
      RunKeeps(steps[..|steps| - 1]);
      StepKeeps(Run(steps[..|steps| - 1]), steps[|steps| - 1]);
    }
  }

  // ----- Results, for every interleaving -----

  lemma Pair<T>(s: set<T>, x: T, y: T)
    requires x in s && y in s && |s| <= 1
    ensures x == y
  {
    assert s == (s - {x}) + {x};
    assert |s - {x}| == 0;
  }

  /** At most one thread holds a chunk. */
  lemma OneHolder(steps: seq<Step>, r: nat, t: nat)
    requires var s := Run(steps); r in s.threads && t in s.threads && s.threads[r].Holds? && s.threads[r] == s.threads[t]
    ensures r == t
  {
    RunKeeps(steps);
    var s := Run(steps);
    assert ChunkInv(s, s.threads[r].c);
    Pair(At(s.threads, s.threads[r]), r, t);
  }

  /** A thread never points at a freed record, and the record it holds is locked. */
  lemma NoDanglingPointer(steps: seq<Step>, r: nat)
    requires r in Run(steps).threads
    ensures var s := Run(steps);
            var c := s.threads[r].c;
            c in s.mem && c in s.table && (s.threads[r].Holds? ==> s.mem[c].state == Locked)
  {
    RunKeeps(steps);
    var s := Run(steps);
    assert ChunkInv(s, s.threads[r].c);
    Counted(s.threads, r);
  }

  /** One record for each chunk id, and the search finds it. */
  lemma OneRecord(steps: seq<Step>, c: Pointer)
    requires c in Run(steps).mem
    ensures var s := Run(steps); Find(s.table, s.mem, s.mem[c].chunkid) == Some(c)
  {
    RunKeeps(steps);
    var s := Run(steps);
    FindLaw(s.table, s.mem, s.mem[c].chunkid);
  }

  /** The counter of a condition object is the number of threads that wait for its one chunk. */
  lemma WaitersCounted(steps: seq<Step>, c: Pointer)
    requires c in Run(steps).mem
    ensures var s := Run(steps);
            match s.mem[c].ccond
            case None => At(s.threads, Awaits(c)) == {}
            case Some(cc) =>
              && cc in s.conds && s.conds[cc] == |At(s.threads, Awaits(c))|
              && forall d :: d in s.mem && s.mem[d].ccond == Some(cc) ==> d == c
  {
    RunKeeps(steps);
    var s := Run(steps);
    assert ChunkInv(s, c);
  }

  /** A step that frees a record leaves no thread that holds it or waits for it. */
  lemma FreedWhenUnused(steps: seq<Step>, step: Step, c: Pointer)
    requires c in Run(steps).mem && c !in Next(Run(steps), step).mem
    ensures var t := Next(Run(steps), step);
            && c !in t.table
            && forall r :: r in t.threads ==> t.threads[r] != Holds(c) && t.threads[r] != Awaits(c)
  {
    RunKeeps(steps);
    StepKeeps(Run(steps), step);
    var t := Next(Run(steps), step);
    assert ChunkInv(t, c);
    forall r | r in t.threads ensures t.threads[r] != Holds(c) && t.threads[r] != Awaits(c) {
      Counted(t.threads, r);
    }
  }

  // ----- Waking up -----

  ghost predicate HasAwake(s: State, c: Pointer) {
    exists r :: r in s.awake && WaitsFor(s, c, r)
  }

  /** Threads wait for a chunk that nobody holds, and none of them was woken up. */
  ghost predicate Stranded(s: State, c: Pointer) {
    c in s.mem && s.mem[c].state != Locked && s.mem[c].ccond.Some? && !HasAwake(s, c)
  }

  /**
   The one way to get there: the only thread that was woken up for a chunk that nobody holds has
   waited too long at that moment, and others wait too. Nobody signals them.
   */
  ghost predicate Loses(s: State, step: Step, c: Pointer) {
    && step.GiveUp? && Waits(s, step.req) && WaitsFor(s, c, step.req) && step.req in s.awake
    && s.mem[c].state != Locked && s.conds[s.mem[c].ccond.value] > 1
    && forall r :: r in s.awake && WaitsFor(s, c, r) ==> r == step.req
  }

  /** A chunk that a step does not touch, with the same threads waiting and awake. */
  ghost predicate SameWait(s: State, t: State, d: Pointer) {
    && (d in t.mem <==> d in s.mem) && (d in s.mem ==> t.mem[d] == s.mem[d])
    && forall r: nat :: WaitsFor(t, d, r) == WaitsFor(s, d, r) && (WaitsFor(s, d, r) ==> (r in t.awake <==> r in s.awake))
  }

  lemma SameStranded(s: State, t: State, d: Pointer)
    requires SameWait(s, t, d)
    ensures Stranded(t, d) == Stranded(s, d)
  {
    if HasAwake(s, d) {
      var r :| r in s.awake && WaitsFor(s, d, r);
      assert WaitsFor(t, d, r) && r in t.awake;
    }
    if HasAwake(t, d) {
      var r :| r in t.awake && WaitsFor(t, d, r);
      assert WaitsFor(s, d, r) && r in s.awake;
    }
  }

  /** A counted waiter is a thread. */
  lemma SomeWaiter(s: State, c: Pointer) returns (r: nat)
    requires Inv(s) && c in s.mem && s.mem[c].ccond.Some?
    ensures WaitsFor(s, c, r)
  {
    assert ChunkInv(s, c);
    r := Pick(s.threads, Awaits(c));
  }

  /** A signal leaves a waiter awake, if there is a waiter. */
  lemma SignalWakes(s: State, c: Pointer, chosen: nat)
    requires Inv(s) && c in s.mem && Chooses(s, c, chosen)
    ensures !Stranded(Signal(s, c, chosen), c)
    ensures forall d :: d != c ==> SameWait(s, Signal(s, c, chosen), d)
  {
    var t := Signal(s, c, chosen);
    if s.mem[c].ccond.Some? {
      var r := SomeWaiter(s, c);
      if r !in s.awake {
        assert chosen in t.awake && WaitsFor(t, c, chosen);
      } else {
        assert r in t.awake && WaitsFor(t, c, r);
      }
    }
  }

  lemma LookStrands(s: State, c: Pointer, req: nat, idle: nat, chosen: nat)
    requires Inv(s) && c in s.mem && req !in s.threads && req in s.modes && Chooses(s, c, chosen)
    ensures !Stranded(Look(s, c, req, idle, chosen), c)
    ensures forall d :: d != c ==> SameWait(s, Look(s, c, req, idle, chosen), d)
  {
    if s.mem[c].state == Deleted && s.modes[req] == ExistingOnly && s.mem[c].ccond.Some? {
      SignalWakes(s, c, chosen);
    }
  }

  /** A waiter leaves: the others stay as they were. */
  lemma LeaveStrands(s: State, req: nat, c: Pointer)
    requires Inv(s) && Waits(s, req) && s.threads[req] == Awaits(c) && !Stranded(s, c)
    ensures Stranded(Leave(s, c, req), c) <==> Loses(s, GiveUp(req), c)
    ensures forall d :: d != c ==> SameWait(s, Leave(s, c, req), d)
  {
    var t := Leave(s, c, req);
    if Stranded(t, c) {
      assert s.mem[c].ccond.Some? && s.mem[c].state != Locked;
      forall r | r in s.awake && WaitsFor(s, c, r) ensures r == req {
        if r != req {
          assert r in t.awake && WaitsFor(t, c, r);
        }
      }
      var r :| r in s.awake && WaitsFor(s, c, r);
    }
  }

  lemma CreateStrands(s: State, chunkid: nat, ptr: Pointer, req: nat, c: Pointer)
    requires !Stranded(s, c) && ptr !in s.mem && req !in s.threads
    ensures !Stranded(Create(s, chunkid, ptr, req), c)
  {
    if c != ptr {
      SameStranded(s, Create(s, chunkid, ptr, req), c);
    }
  }

  lemma LookedStrands(s: State, d: Pointer, req: nat, idle: nat, chosen: nat, c: Pointer)
    requires Inv(s) && d in s.mem && req !in s.threads && req in s.modes && Chooses(s, d, chosen) && !Stranded(s, c)
    ensures !Stranded(Look(s, d, req, idle, chosen), c)
  {
    LookStrands(s, d, req, idle, chosen);
    if c != d {
      SameStranded(s, Look(s, d, req, idle, chosen), c);
    }
  }

  lemma GetStrands(s: State, step: Step, c: Pointer)
    requires Inv(s) && step.Get? && !Stranded(s, c)
    ensures !Stranded(Next(s, step), c)
  {
    var t := Asked(s, step.mode);
    RequestKeeps(s, step.mode);
    SameStranded(s, t, c);
    if step.ptr !in s.mem && GetChooses(s, step.chunkid, step.chosen) {
      match Find(s.table, s.mem, step.chunkid)
      case None => CreateStrands(t, step.chunkid, step.ptr, s.next, c);
      case Some(d) => if d in s.mem { LookedStrands(t, d, s.next, step.idle, step.chosen, c); }
    }
  }

  lemma TryFindStrands(s: State, chunkid: nat, c: Pointer)
    requires Inv(s) && !Stranded(s, c)
    ensures !Stranded(TryFindChunk(s, chunkid), c)
  {
    var t := TryFindChunk(s, chunkid);
    if Find(s.table, s.mem, chunkid) != Some(c) {
      SameStranded(s, t, c);
    }
  }

  lemma WakeStrands(s: State, req: nat, idle: nat, chosen: nat, c: Pointer)
    requires Inv(s) && CanWake(s, req, idle, chosen) && !Stranded(s, c)
    ensures !Stranded(WakeUp(s, req, idle, chosen), c)
  {
    var d := s.threads[req].c;
    var t := Leave(s, d, req);
    LeaveKeeps(s, req);
    if c != d {
      assert SameWait(s, t, c);
      SameStranded(s, t, c);
      LookedStrands(t, d, req, idle, chosen, c);
    } else {
      LookStrands(t, d, req, idle, chosen);
    }
  }

  lemma ReleaseStrands(s: State, req: nat, chosen: nat, c: Pointer)
    requires Inv(s) && Has(s, req) && Chooses(s, s.threads[req].c, chosen) && !Stranded(s, c)
    ensures !Stranded(ReleaseChunk(s, req, chosen), c)
  {
    var d := s.threads[req].c;
    HolderLeaves(s, req);
    var t := s.(mem := s.mem[d := s.mem[d].(state := Avail)], threads := s.threads - {req});
    ReleaseKeeps(s, req, req);
    assert t == ReleaseChunk(s, req, req);
    SignalWakes(t, d, chosen);
    if c != d {
      SameStranded(s, t, c);
      SameStranded(t, Signal(t, d, chosen), c);
    }
  }

  lemma DeleteStrands(s: State, req: nat, chosen: nat, c: Pointer)
    requires Inv(s) && Has(s, req) && Chooses(s, s.threads[req].c, chosen) && !Stranded(s, c)
    ensures !Stranded(DeleteChunk(s, req, chosen), c)
  {
    var d := s.threads[req].c;
    if s.mem[d].ccond.Some? {
      var t := s.(threads := s.threads - {req}, mem := s.mem[d := s.mem[d].(state := Deleted)]);
      MarkKeeps(s, req);
      SignalWakes(t, d, chosen);
      if c != d {
        SameStranded(s, t, c);
        SameStranded(t, Signal(t, d, chosen), c);
      }
    } else if c != d {
      SameStranded(s, Free(s.(threads := s.threads - {req}), d), c);
    }
  }

  /** A step strands the waiters of a chunk exactly when it loses the wake-up. */
  lemma StepStrands(s: State, step: Step, c: Pointer)
    requires Inv(s) && !Stranded(s, c)
    ensures Stranded(Next(s, step), c) <==> Loses(s, step, c)
  {
    match step
    case Get(_, _, _, _, _) => GetStrands(s, step, c);
    case TryFind(chunkid) => TryFindStrands(s, chunkid, c);
    case Wake(req, idle, chosen) => if CanWake(s, req, idle, chosen) { WakeStrands(s, req, idle, chosen, c); }
    case GiveUp(req) =>
      if Waits(s, req) {
        if s.threads[req] == Awaits(c) {
          LeaveStrands(s, req, c);
        } else {
          SameStranded(s, Leave(s, s.threads[req].c, req), c);
        }
      }
    case Release(req, chosen) =>
      if Has(s, req) && Chooses(s, s.threads[req].c, chosen) { ReleaseStrands(s, req, chosen, c); }
    case Delete(req, chosen) =>
      if Has(s, req) && Chooses(s, s.threads[req].c, chosen) { DeleteStrands(s, req, chosen, c); }
  }

  /** At some point of a run the waiters of a chunk were stranded. */
  ghost predicate EverStranded(steps: seq<Step>, c: Pointer) {
    Stranded(Run(steps), c) || (|steps| > 0 && EverStranded(steps[..|steps| - 1], c))
  }

  /** Some step of a run lost a wake-up. */
  ghost predicate EverLoses(steps: seq<Step>, c: Pointer) {
    |steps| > 0 && (EverLoses(steps[..|steps| - 1], c) || Loses(Run(steps[..|steps| - 1]), steps[|steps| - 1], c))
  }

  /** Waiters of a chunk that nobody holds have one of them awake at all times, exactly if no wake-up is lost. */
  lemma {:induction false} StrandedExactly(steps: seq<Step>, c: Pointer)
    ensures EverStranded(steps, c) <==> EverLoses(steps, c)
  {
    if |steps| > 0 {
      var front, last := steps[..|steps| - 1], steps[|steps| - 1];
      StrandedExactly(front, c);
      if !EverStranded(front, c) {
        RunKeeps(front);
        StepStrands(Run(front), last, c);
      }
    }
  }

  /** Without a lost wake-up, a thread that waits for a chunk which is available is awake and gets it. */
  lemma AvailableIsTaken(steps: seq<Step>, c: Pointer, idle: nat) returns (req: nat, chosen: nat)
    requires !EverLoses(steps, c)
    requires var s := Run(steps); c in s.mem && s.mem[c].state == Avail && s.mem[c].ccond.Some? && idle !in s.conds
    ensures var s := Run(steps);
            && req in s.awake && WaitsFor(s, c, req)
            && req in Next(s, Wake(req, idle, chosen)).threads && Next(s, Wake(req, idle, chosen)).threads[req] == Holds(c)
  {
    StrandedExactly(steps, c);
    RunKeeps(steps);
    var s := Run(steps);
    assert !Stranded(s, c);
    req :| req in s.awake && WaitsFor(s, c, req);
    assert ChunkInv(s, c);
    Counted(s.threads, req);
    var t := Leave(s, c, req);
    if r :| r in t.threads && WaitsFor(t, c, r) && r !in t.awake {
      chosen := r;
    } else {
      chosen := 0;
    }
  }

  lemma RunPush(steps: seq<Step>, step: Step)
    ensures Run(steps + [step]) == Next(Run(steps), step)
  {
    assert (steps + [step])[..|steps|] == steps;
  }

  /** A thread holds a chunk and another waits for it. */
  const HELD_AND_AWAITED: State :=
    State([1], map[1 := Chunk(7, Locked, Some(0))], map[0 := 1], map[0 := Holds(1), 1 := Awaits(1)],
          map[0 := NewOnly, 1 := ExistingOnly], {}, 2)

  lemma FirstWaits(a: Step, b: Step)
    requires a == Get(7, NewOnly, 1, 0, 0) && b == Get(7, ExistingOnly, 2, 0, 0)
    ensures Next(Next(START, a), b) == HELD_AND_AWAITED
  {
    var s := State([1], map[1 := Chunk(7, Locked, None)], map[], map[0 := Holds(1)], map[0 := NewOnly], {}, 1);
    assert Next(START, a) == s;
    assert Next(s, b) == HELD_AND_AWAITED;
  }

  lemma SecondWaits(c: Step)
    requires c == Get(7, ExistingOnly, 2, 1, 1)
    ensures var s := Next(HELD_AND_AWAITED, c);
            && s.table == [1] && s.mem == map[1 := Chunk(7, Locked, Some(0))] && s.conds == map[0 := 2]
            && s.threads == map[0 := Holds(1), 1 := Awaits(1), 2 := Awaits(1)] && s.awake == {}
            && s.modes == map[0 := NewOnly, 1 := ExistingOnly, 2 := ExistingOnly]
  {
    assert WaitsFor(HELD_AND_AWAITED, 1, 1);
    assert GetChooses(HELD_AND_AWAITED, 7, 1);
  }

  /** The chunk is released, the first of two waiters is woken up, and gives up. */
  lemma WokenGivesUp(s: State)
    requires s.mem == map[1 := Chunk(7, Locked, Some(0))] && s.conds == map[0 := 2] && s.awake == {}
    requires s.threads == map[0 := Holds(1), 1 := Awaits(1), 2 := Awaits(1)]
    requires s.modes == map[0 := NewOnly, 1 := ExistingOnly, 2 := ExistingOnly]
    ensures Stranded(Next(Next(s, Release(0, 1)), GiveUp(1)), 1)
  {
    assert WaitsFor(s, 1, 1) && Chooses(s, 1, 1);
    var t := Next(s, Release(0, 1));
    assert t.mem[1] == Chunk(7, Avail, Some(0)) && t.awake == {1} && Waits(t, 1);
    assert Next(t, GiveUp(1)).awake == {};
  }

  /** A wake-up can be lost: the chunk is available, a thread waits for it, and nobody is awake. */
  lemma WakeUpCanBeLost(a: Step, b: Step, c: Step)
    requires a == Get(7, NewOnly, 1, 0, 0) && b == Get(7, ExistingOnly, 2, 0, 0) && c == Get(7, ExistingOnly, 2, 1, 1)
    ensures Stranded(Run([a, b, c, Release(0, 1), GiveUp(1)]), 1)
  {
    var d, e := Release(0, 1), GiveUp(1);
    RunPush([], a);
    RunPush([a], b);
    RunPush([a, b], c);
    RunPush([a, b, c], d);
    RunPush([a, b, c, d], e);
    assert [] + [a] == [a] && [a] + [b] == [a, b] && [a, b] + [c] == [a, b, c];
    assert [a, b, c] + [d] == [a, b, c, d] && [a, b, c, d] + [e] == [a, b, c, d, e];
    FirstWaits(a, b);
    SecondWaits(c);
    WokenGivesUp(Run([a, b, c]));
  }

  // ----- What the modes mean -----

  predicate HoldsChunk(s: State, req: nat, c: Pointer) {
    req in s.threads && s.threads[req] == Holds(c)
  }

  /** The answer to a request for a chunk of which there is a record. */
  lemma GetExisting(steps: seq<Step>, step: Step, c: Pointer)
    requires var s := Run(steps);
             && step.Get? && step.ptr !in s.mem && Idle(s, step.idle) && GetChooses(s, step.chunkid, step.chosen)
             && c in s.mem && s.mem[c].chunkid == step.chunkid
    ensures var s, t := Run(steps), Next(Run(steps), step);
            var req, state := s.next, s.mem[c].state;
            && (HoldsChunk(t, req, c) <==>
                  (state == Avail && step.mode != NewOnly) || (state == Deleted && step.mode != ExistingOnly))
            && (WaitsFor(t, c, req) <==> state == Locked && step.mode != NewOnly)
            && (req in t.threads ==> t.threads[req] == Holds(c) || t.threads[req] == Awaits(c))
  {
    RunKeeps(steps);
    OneRecord(steps, c);
    RequestKeeps(Run(steps), step.mode);
  }

  /** The answer to a request for a chunk of which there is none. */
  lemma GetMissing(steps: seq<Step>, step: Step)
    requires var s := Run(steps);
             && step.Get? && step.ptr !in s.mem && Idle(s, step.idle)
             && forall c :: c in s.mem ==> s.mem[c].chunkid != step.chunkid
    ensures var s, t := Run(steps), Next(Run(steps), step);
            && (s.next in t.threads <==> step.mode != ExistingOnly)
            && (s.next in t.threads ==>
                  HoldsChunk(t, s.next, step.ptr) && step.ptr in t.mem && t.mem[step.ptr] == Chunk(step.chunkid, Locked, None))
  {
    RunKeeps(steps);
    RequestKeeps(Run(steps), step.mode);
    FindLaw(Run(steps).table, Run(steps).mem, step.chunkid);
  }

  /** Requests that wait are known, and none of them is for new chunks only. */
  ghost predicate Patient(s: State) {
    && (forall r :: r in s.threads ==> r < s.next)
    && (forall r :: r in s.threads && s.threads[r].Awaits? ==> r in s.modes && s.modes[r] != NewOnly)
  }

  lemma LookPatient(s: State, c: Pointer, req: nat, idle: nat, chosen: nat)
    requires Patient(s) && c in s.mem && req in s.modes && req < s.next
    requires s.modes[req] == NewOnly ==> s.mem[c].state == Deleted
    ensures Patient(Look(s, c, req, idle, chosen))
  {
  }

  lemma GetPatient(s: State, step: Step)
    requires Patient(s) && step.Get?
    ensures Patient(Next(s, step))
  {
    var t := Asked(s, step.mode);
    match Find(s.table, s.mem, step.chunkid)
    case None =>
    case Some(c) =>
      if c in s.mem && (step.mode == NewOnly ==> s.mem[c].state == Deleted) {
        LookPatient(t, c, s.next, step.idle, step.chosen);
      }
  }

  lemma WakePatient(s: State, req: nat, idle: nat, chosen: nat)
    requires Patient(s) && CanWake(s, req, idle, chosen)
    ensures Patient(WakeUp(s, req, idle, chosen))
  {
    LookPatient(Leave(s, s.threads[req].c, req), s.threads[req].c, req, idle, chosen);
  }

  lemma StepPatient(s: State, step: Step)
    requires Patient(s)
    ensures Patient(Next(s, step))
  {
    match step
    case Get(_, _, _, _, _) => GetPatient(s, step);
    case Wake(req, idle, chosen) => if CanWake(s, req, idle, chosen) { WakePatient(s, req, idle, chosen); }
    case _ =>
  }

  lemma {:induction false} RunPatient(steps: seq<Step>)
    ensures Patient(Run(steps))
  {
    if |steps| > 0 {
      RunPatient(steps[..|steps| - 1]);
      StepPatient(Run(steps[..|steps| - 1]), steps[|steps| - 1]);
    }
  }

  /** A request for new chunks only never waits. */
  lemma NewOnlyNeverWaits(steps: seq<Step>, req: nat, c: Pointer)
    requires WaitsFor(Run(steps), c, req)
    ensures var s := Run(steps); req in s.modes && s.modes[req] != NewOnly
  {
    RunPatient(steps);
  }

  /** What a look at a record gives, and to whom. */
  lemma LookGets(s: State, c: Pointer, req: nat, idle: nat, chosen: nat, r: nat, d: Pointer)
    requires c in s.mem && req in s.modes && req !in s.threads
    requires !HoldsChunk(s, r, d) && HoldsChunk(Look(s, c, req, idle, chosen), r, d)
    ensures r == req && d == c && s.mem[c].state != Locked && (s.mem[c].state == Deleted ==> s.modes[req] != ExistingOnly)
    ensures Look(s, c, req, idle, chosen).modes == s.modes
  {
  }

  /** What a request may get in its mode: the state of the record before. */
  predicate InMode(s: State, mode: Mode, c: Pointer) {
    match mode
    case ExistingOnly => c in s.mem && s.mem[c].state == Avail
    case NewOnly => c in s.mem ==> s.mem[c].state == Deleted
    case NewOrExisting => c in s.mem ==> s.mem[c].state != Locked
  }

  lemma GetInMode(s: State, step: Step, req: nat, c: Pointer)
    requires Patient(s) && step.Get? && !HoldsChunk(s, req, c) && HoldsChunk(Next(s, step), req, c)
    ensures req == s.next && InMode(s, step.mode, c) && req in Next(s, step).modes && Next(s, step).modes[req] == step.mode
  {
    var t := Asked(s, step.mode);
    match Find(s.table, s.mem, step.chunkid)
    case None =>
    case Some(d) =>
      if d in s.mem && (step.mode == NewOnly ==> s.mem[d].state == Deleted) {
        LookGets(t, d, s.next, step.idle, step.chosen, req, c);
      }
  }

  lemma WakeInMode(s: State, w: nat, idle: nat, chosen: nat, req: nat, c: Pointer)
    requires Patient(s) && CanWake(s, w, idle, chosen)
    requires !HoldsChunk(s, req, c) && HoldsChunk(WakeUp(s, w, idle, chosen), req, c)
    ensures req == w && c in s.mem && s.mem[c].state != Locked && WakeUp(s, w, idle, chosen).modes == s.modes
    ensures s.mem[c].state == Deleted ==> s.modes[req] != ExistingOnly
  {
    LookGets(Leave(s, s.threads[w].c, w), s.threads[w].c, w, idle, chosen, req, c);
  }

  /**
   What a request gets, now or after waiting, was there to be had in its mode: an existing chunk, or
   one that did not exist or was deleted, or either.
   */
  lemma GotInMode(steps: seq<Step>, step: Step, req: nat, c: Pointer)
    requires !HoldsChunk(Run(steps), req, c) && HoldsChunk(Next(Run(steps), step), req, c)
    ensures var s, t := Run(steps), Next(Run(steps), step);
            if step.TryFind? then InMode(s, ExistingOnly, c)
            else req in t.modes && InMode(s, t.modes[req], c)
  {
    RunPatient(steps);
    var s := Run(steps);
    match step
    case Get(_, _, _, _, _) => GetInMode(s, step, req, c);
    case Wake(w, idle, chosen) => if CanWake(s, w, idle, chosen) { WakeInMode(s, w, idle, chosen, req, c); }
    case _ =>
  }
}
