/**
 The queue of one server of a write chain: one list of jobs, a cursor of the disk thread and a cursor
 of the network. The list is singly linked with a pointer to its last link; jobs that both sides
 acknowledged are taken off the head and freed, and statuses for write id 0 are put in at the head.
 */
module WriteQueue {
  import opened Options

  const OK: nat := 0
  const PENDING: nat := 0xFF

  /** A data packet as the client sent it. */
  datatype Packet = Packet(writeid: nat, body: seq<bv8>)

  datatype Write = Write(packet: Packet, hddstatus: nat, netstatus: nat)

  /**
   The queue as a value: statuses put in at the head, the first to be taken last, and all writes ever
   queued, of which the first `done` are gone. A cursor at the end is a null pointer.
   */
  datatype Queue = Queue(announced: seq<nat>, writes: seq<Write>, done: nat, hdd: nat, net: nat) {
    predicate Valid() {
      && done <= hdd <= |writes| && done <= net <= |writes|
      && forall i :: 0 <= i < done ==> writes[i].hddstatus == OK && writes[i].netstatus == OK
    }

    function Enqueue(p: Packet): Queue {
      this.(writes := writes + [Write(p, PENDING, PENDING)])
    }

    function Announce(status: nat): Queue {
      this.(announced := announced + [status])
    }

    function HddDone(status: nat): Queue
      requires hdd < |writes|
    {
      this.(writes := writes[hdd := writes[hdd].(hddstatus := status)], hdd := hdd + 1)
    }

    /** The status of a write is accepted only for the job whose turn it is. */
    predicate Awaits(writeid: nat) {
      net < |writes| && writes[net].packet.writeid == writeid
    }

    function NetDone(status: nat): Queue
      requires net < |writes|
    {
      this.(writes := writes[net := writes[net].(netstatus := status)], net := net + 1)
    }

    /** The first job is complete and both sides succeeded. */
    predicate Ready()
      requires Valid()
    {
      if |announced| > 0 then announced[|announced| - 1] == OK
      else done < hdd && done < net && writes[done].hddstatus == OK && writes[done].netstatus == OK
    }

    function FirstId(): nat
      requires |announced| > 0 || done < |writes|
    {
      if |announced| > 0 then 0 else writes[done].packet.writeid
    }

    function Pop(): Queue {
      if |announced| > 0 then this.(announced := announced[..|announced| - 1]) else this.(done := done + 1)
    }
  }

  // ----- The linked list -----

  type Address = nat
  const NULL: Address := 0

  /** write_job. */
  datatype WriteJob = WriteJob(
    write: Option<Packet>, writeid: nat, hddAck: bool, netAck: bool, hddstatus: nat, netstatus: nat, next: Address)

  /** Which job lives at an address. */
  datatype Place = OfStatus(i: nat) | OfWrite(i: nat)

  /** The address in place i of a list of writes, null past its end. */
  function At(ws: seq<Address>, i: nat): Address {
    if i < |ws| then ws[i] else NULL
  }

  /** Status i, with its link to the status before it or to the first write. */
  ghost predicate StatusAt(mem: map<Address, WriteJob>, ss: seq<Address>, ws: seq<Address>, q: Queue, i: nat) {
    && i < |ss| && i < |q.announced| && ss[i] in mem
    && mem[ss[i]] == WriteJob(None, 0, true, true, OK, q.announced[i], if i > 0 then ss[i - 1] else At(ws, q.done))
  }

  /** Write i, with its link to the next write. */
  ghost predicate WriteAt(mem: map<Address, WriteJob>, ws: seq<Address>, q: Queue, i: nat) {
    && i < |ws| && i < |q.writes| && ws[i] in mem
    && var w := q.writes[i];
       mem[ws[i]] ==
       WriteJob(Some(w.packet), w.packet.writeid, i < q.hdd, i < q.net, w.hddstatus, w.netstatus, At(ws, i + 1))
  }

  /** The list as the queue says. */
  ghost predicate Linked(mem: map<Address, WriteJob>, ss: seq<Address>, ws: seq<Address>, q: Queue) {
    && |ss| == |q.announced| && |ws| == |q.writes|
    && (forall i: nat :: i < |ss| ==> StatusAt(mem, ss, ws, q, i))
    && (forall i: nat :: q.done <= i < |ws| ==> WriteAt(mem, ws, q, i))
  }

  /** The job in place p of the list. */
  function JobAt(ss: seq<Address>, ws: seq<Address>, done: nat, p: Place): Option<Address> {
    match p
    case OfStatus(i) => if i < |ss| then Some(ss[i]) else None
    case OfWrite(i) => if done <= i < |ws| then Some(ws[i]) else None
  }

  /** Each allocated job is in exactly one place of the list, and each place has its job. */
  ghost predicate Placed(mem: map<Address, WriteJob>, ss: seq<Address>, ws: seq<Address>, at: map<Address, Place>, done: nat) {
    && NULL !in mem && mem.Keys == at.Keys
    && (forall a :: a in at ==> JobAt(ss, ws, done, at[a]) == Some(a))
    && (forall p :: JobAt(ss, ws, done, p).Some? ==> var a := JobAt(ss, ws, done, p).value; a in at && at[a] == p)
  }

  /** The address of the first and of the last job. */
  function FirstOf(ss: seq<Address>, ws: seq<Address>, done: nat): Address {
    if |ss| > 0 then ss[|ss| - 1] else At(ws, done)
  }

  function LastOf(ss: seq<Address>, ws: seq<Address>, done: nat): Address {
    if done < |ws| then ws[|ws| - 1] else if |ss| > 0 then ss[0] else NULL
  }

  lemma PlaceOf(mem: map<Address, WriteJob>, ss: seq<Address>, ws: seq<Address>, at: map<Address, Place>, done: nat, p: Place)
    requires Placed(mem, ss, ws, at, done) && JobAt(ss, ws, done, p).Some?
    ensures var a := JobAt(ss, ws, done, p).value; a in mem && a != NULL && a in at && at[a] == p
  {
  }

  // ----- A job is linked in at the end -----

  /** The memory after the last link was set to a. */
  function Relinked(mem: map<Address, WriteJob>, last: Address, a: Address): map<Address, WriteJob>
  {
    if last in mem then mem[last := mem[last].(next := a)] else mem
  }

  lemma AppendedStatus(mem: map<Address, WriteJob>, ss: seq<Address>, ws: seq<Address>, at: map<Address, Place>, q: Queue,
                       p: Packet, a: Address, job: WriteJob, i: nat)
    requires q.Valid() && Linked(mem, ss, ws, q) && Placed(mem, ss, ws, at, q.done)
    requires a != NULL && a !in mem && i < |ss|
    ensures StatusAt(Relinked(mem, LastOf(ss, ws, q.done), a)[a := job], ss, ws + [a], q.Enqueue(p), i)
  {
    assert StatusAt(mem, ss, ws, q, i);
    PlaceOf(mem, ss, ws, at, q.done, OfStatus(i));
    if q.done < |ws| {
      PlaceOf(mem, ss, ws, at, q.done, OfWrite(|ws| - 1));
    } else {
      PlaceOf(mem, ss, ws, at, q.done, OfStatus(0));
    }
  }

  lemma AppendedWrite(mem: map<Address, WriteJob>, ss: seq<Address>, ws: seq<Address>, at: map<Address, Place>, q: Queue,
                      p: Packet, a: Address, job: WriteJob, i: nat)
    requires q.Valid() && Linked(mem, ss, ws, q) && Placed(mem, ss, ws, at, q.done)
    requires a != NULL && a !in mem && q.done <= i < |ws|
    ensures WriteAt(Relinked(mem, LastOf(ss, ws, q.done), a)[a := job], ws + [a], q.Enqueue(p), i)
  {
    assert WriteAt(mem, ws, q, i);
    PlaceOf(mem, ss, ws, at, q.done, OfWrite(i));
    PlaceOf(mem, ss, ws, at, q.done, OfWrite(|ws| - 1));
  }

  lemma AppendedPlaces(mem: map<Address, WriteJob>, mem': map<Address, WriteJob>, ss: seq<Address>, ws: seq<Address>,
                       at: map<Address, Place>, done: nat, a: Address)
    requires Placed(mem, ss, ws, at, done) && a != NULL && a !in mem && done <= |ws|
    requires mem'.Keys == mem.Keys + {a}
    ensures Placed(mem', ss, ws + [a], at[a := OfWrite(|ws|)], done)
  {
    var ws', at' := ws + [a], at[a := OfWrite(|ws|)];
    forall x | x in at' ensures JobAt(ss, ws', done, at'[x]) == Some(x) {
      assert x != a ==> JobAt(ss, ws, done, at[x]) == Some(x);
    }
    forall p | JobAt(ss, ws', done, p).Some?
      ensures var x := JobAt(ss, ws', done, p).value; x in at' && at'[x] == p
    {
      if p != OfWrite(|ws|) {
        PlaceOf(mem, ss, ws, at, done, p);
      }
    }
  }

  lemma Appended(mem: map<Address, WriteJob>, mem': map<Address, WriteJob>, ss: seq<Address>, ws: seq<Address>,
                 at: map<Address, Place>, q: Queue, p: Packet, a: Address, job: WriteJob)
    requires q.Valid() && Linked(mem, ss, ws, q) && Placed(mem, ss, ws, at, q.done)
    requires a != NULL && a !in mem
    requires job == WriteJob(Some(p), p.writeid, false, false, PENDING, PENDING, NULL)
    requires mem' == Relinked(mem, LastOf(ss, ws, q.done), a)[a := job]
    ensures Linked(mem', ss, ws + [a], q.Enqueue(p))
    ensures Placed(mem', ss, ws + [a], at[a := OfWrite(|ws|)], q.done)
  {
    var ws', q' := ws + [a], q.Enqueue(p);
    forall i: nat | i < |ss| ensures StatusAt(mem', ss, ws', q', i) {
      AppendedStatus(mem, ss, ws, at, q, p, a, job, i);
    }
    forall i: nat | q.done <= i < |ws'| ensures WriteAt(mem', ws', q', i) {
      if i < |ws| {
        AppendedWrite(mem, ss, ws, at, q, p, a, job, i);
      }
    }
    AppendedPlaces(mem, mem', ss, ws, at, q.done, a);
  }

  // ----- A status is put in at the head -----

  lemma Announced(mem: map<Address, WriteJob>, mem': map<Address, WriteJob>, ss: seq<Address>, ws: seq<Address>,
                  at: map<Address, Place>, q: Queue, status: nat, a: Address)
    requires q.Valid() && Linked(mem, ss, ws, q) && Placed(mem, ss, ws, at, q.done)
    requires a != NULL && a !in mem
    requires mem' == mem[a := WriteJob(None, 0, true, true, OK, status, FirstOf(ss, ws, q.done))]
    ensures Linked(mem', ss + [a], ws, q.Announce(status))
    ensures Placed(mem', ss + [a], ws, at[a := OfStatus(|ss|)], q.done)
  {
    var ss', q', at' := ss + [a], q.Announce(status), at[a := OfStatus(|ss|)];
    forall i: nat | i < |ss'| ensures StatusAt(mem', ss', ws, q', i) {
      if i < |ss| {
        assert StatusAt(mem, ss, ws, q, i);
      }
    }
    forall i: nat | q.done <= i < |ws| ensures WriteAt(mem', ws, q', i) {
      assert WriteAt(mem, ws, q, i);
    }
    forall x | x in at' ensures JobAt(ss', ws, q.done, at'[x]) == Some(x) {
      assert x != a ==> JobAt(ss, ws, q.done, at[x]) == Some(x);
    }
    forall p | JobAt(ss', ws, q.done, p).Some?
      ensures var x := JobAt(ss', ws, q.done, p).value; x in at' && at'[x] == p
    {
      if p != OfStatus(|ss|) {
        PlaceOf(mem, ss, ws, at, q.done, p);
      }
    }
  }

  // ----- A write is acknowledged -----

  /** The queues differ in write k only. */
  ghost predicate DifferAt(q: Queue, q': Queue, k: nat) {
    && q'.announced == q.announced && q'.done == q.done && |q'.writes| == |q.writes|
    && forall i :: 0 <= i < |q.writes| && i != k ==>
         q'.writes[i] == q.writes[i] && (i < q'.hdd) == (i < q.hdd) && (i < q'.net) == (i < q.net)
  }

  lemma Touched(mem: map<Address, WriteJob>, mem': map<Address, WriteJob>, ss: seq<Address>, ws: seq<Address>,
                at: map<Address, Place>, q: Queue, q': Queue, k: nat, job: WriteJob)
    requires Linked(mem, ss, ws, q) && Placed(mem, ss, ws, at, q.done)
    requires q.done <= k < |ws| && DifferAt(q, q', k)
    requires mem' == mem[ws[k] := job] && WriteAt(mem', ws, q', k)
    ensures Linked(mem', ss, ws, q') && Placed(mem', ss, ws, at, q.done)
  {
    PlaceOf(mem, ss, ws, at, q.done, OfWrite(k));
    forall i: nat | i < |ss| ensures StatusAt(mem', ss, ws, q', i) {
      assert StatusAt(mem, ss, ws, q, i);
      PlaceOf(mem, ss, ws, at, q.done, OfStatus(i));
    }
    forall i: nat | q.done <= i < |ws| ensures WriteAt(mem', ws, q', i) {
      if i != k {
        assert WriteAt(mem, ws, q, i);
        PlaceOf(mem, ss, ws, at, q.done, OfWrite(i));
      }
    }
  }

  // ----- The first job is taken off and freed -----

  lemma Popped(mem: map<Address, WriteJob>, mem': map<Address, WriteJob>, ss: seq<Address>, ws: seq<Address>,
               at: map<Address, Place>, at': map<Address, Place>, q: Queue, a: Address)
    requires q.Valid() && Linked(mem, ss, ws, q) && Placed(mem, ss, ws, at, q.done)
    requires a == FirstOf(ss, ws, q.done) && a != NULL && mem' == mem - {a} && at' == at - {a}
    ensures var ss' := if |ss| > 0 then ss[..|ss| - 1] else ss;
            Linked(mem', ss', ws, q.Pop()) && Placed(mem', ss', ws, at', q.Pop().done)
  {
    var ss', q' := if |ss| > 0 then ss[..|ss| - 1] else ss, q.Pop();
    var here := if |ss| > 0 then OfStatus(|ss| - 1) else OfWrite(q.done);
    PlaceOf(mem, ss, ws, at, q.done, here);
    forall i: nat | i < |ss'| ensures StatusAt(mem', ss', ws, q', i) {
      assert StatusAt(mem, ss, ws, q, i);
      PlaceOf(mem, ss, ws, at, q.done, OfStatus(i));
    }
    forall i: nat | q'.done <= i < |ws| ensures WriteAt(mem', ws, q', i) {
      assert WriteAt(mem, ws, q, i);
      PlaceOf(mem, ss, ws, at, q.done, OfWrite(i));
    }
    forall x | x in at' ensures JobAt(ss', ws, q'.done, at'[x]) == Some(x) {
      assert JobAt(ss, ws, q.done, at[x]) == Some(x);
    }
    forall p | JobAt(ss', ws, q'.done, p).Some?
      ensures var x := JobAt(ss', ws, q'.done, p).value; x in at' && at'[x] == p
    {
      PlaceOf(mem, ss, ws, at, q.done, p);
    }
  }

  // ----- Pointers -----

  /** The list in memory and the four pointers into it, as the queue says. */
  ghost predicate Holds(mem: map<Address, WriteJob>, head: Address, hddhead: Address, nethead: Address, last: Address,
                        ss: seq<Address>, ws: seq<Address>, at: map<Address, Place>, q: Queue)
  {
    && q.Valid() && Linked(mem, ss, ws, q) && Placed(mem, ss, ws, at, q.done)
    && head == FirstOf(ss, ws, q.done) && last == LastOf(ss, ws, q.done)
    && hddhead == At(ws, q.hdd) && nethead == At(ws, q.net)
  }

  /** A pointer that is not null points at an allocated job. */
  lemma NeverDangling(mem: map<Address, WriteJob>, head: Address, hddhead: Address, nethead: Address, last: Address,
                      ss: seq<Address>, ws: seq<Address>, at: map<Address, Place>, q: Queue)
    requires Holds(mem, head, hddhead, nethead, last, ss, ws, at, q)
    ensures forall a :: a in {head, hddhead, nethead, last} && a != NULL ==> a in mem
    ensures hddhead == NULL <==> q.hdd == |q.writes|
    ensures nethead == NULL <==> q.net == |q.writes|
    ensures head == NULL <==> q.announced == [] && q.done == |q.writes|
    ensures last == NULL <==> head == NULL
  {
    if |ss| > 0 {
      PlaceOf(mem, ss, ws, at, q.done, OfStatus(0));
      PlaceOf(mem, ss, ws, at, q.done, OfStatus(|ss| - 1));
    }
    if q.done < |ws| {
      PlaceOf(mem, ss, ws, at, q.done, OfWrite(q.done));
      PlaceOf(mem, ss, ws, at, q.done, OfWrite(|ws| - 1));
    }
    if q.hdd < |ws| {
      PlaceOf(mem, ss, ws, at, q.done, OfWrite(q.hdd));
    }
    if q.net < |ws| {
      PlaceOf(mem, ss, ws, at, q.done, OfWrite(q.net));
    }
  }

  lemma AppendedHolds(mem: map<Address, WriteJob>, head: Address, hddhead: Address, nethead: Address, last: Address,
                      ss: seq<Address>, ws: seq<Address>, at: map<Address, Place>, q: Queue, p: Packet, a: Address,
                      mem': map<Address, WriteJob>)
    requires Holds(mem, head, hddhead, nethead, last, ss, ws, at, q)
    requires a != NULL && a !in mem
    requires mem' == Relinked(mem, last, a)[a := WriteJob(Some(p), p.writeid, false, false, PENDING, PENDING, NULL)]
    ensures Holds(mem', if last == NULL then a else head, if hddhead == NULL then a else hddhead,
                  if nethead == NULL then a else nethead, a, ss, ws + [a], at[a := OfWrite(|ws|)], q.Enqueue(p))
    ensures NULL !in mem && (last != NULL ==> last in mem)
  {
    NeverDangling(mem, head, hddhead, nethead, last, ss, ws, at, q);
    Appended(mem, mem', ss, ws, at, q, p, a, mem'[a]);
  }

  lemma AnnouncedHolds(mem: map<Address, WriteJob>, head: Address, hddhead: Address, nethead: Address, last: Address,
                       ss: seq<Address>, ws: seq<Address>, at: map<Address, Place>, q: Queue, status: nat, a: Address)
    requires Holds(mem, head, hddhead, nethead, last, ss, ws, at, q)
    requires a != NULL && a !in mem
    ensures Holds(mem[a := WriteJob(None, 0, true, true, OK, status, head)], a, hddhead, nethead,
                  if head == NULL then a else last, ss + [a], ws, at[a := OfStatus(|ss|)], q.Announce(status))
  {
    NeverDangling(mem, head, hddhead, nethead, last, ss, ws, at, q);
    Announced(mem, mem[a := WriteJob(None, 0, true, true, OK, status, head)], ss, ws, at, q, status, a);
  }

  /** What the first job says. */
  lemma FirstJob(mem: map<Address, WriteJob>, head: Address, hddhead: Address, nethead: Address, last: Address,
                 ss: seq<Address>, ws: seq<Address>, at: map<Address, Place>, q: Queue)
    requires Holds(mem, head, hddhead, nethead, last, ss, ws, at, q)
    ensures head == NULL ==> !q.Ready()
    ensures head != NULL ==>
              && head in mem && (|q.announced| > 0 || q.done < |q.writes|)
              && mem[head].writeid == q.FirstId()
              && q.Ready() == (mem[head].hddAck && mem[head].netAck && mem[head].hddstatus == OK && mem[head].netstatus == OK)
              && mem[head].next == FirstOf(if |ss| > 0 then ss[..|ss| - 1] else ss, ws, q.Pop().done)
  {
    NeverDangling(mem, head, hddhead, nethead, last, ss, ws, at, q);
    if head != NULL {
      if |ss| > 0 {
        assert StatusAt(mem, ss, ws, q, |ss| - 1);
      } else {
        assert WriteAt(mem, ws, q, q.done);
      }
    }
  }

  lemma PoppedHolds(mem: map<Address, WriteJob>, head: Address, hddhead: Address, nethead: Address, last: Address,
                    ss: seq<Address>, ws: seq<Address>, at: map<Address, Place>, q: Queue, first: Address)
    requires Holds(mem, head, hddhead, nethead, last, ss, ws, at, q)
    requires q.Ready() && head != NULL && head in mem && first == mem[head].next
    ensures Holds(mem - {head}, first, hddhead, nethead, if first == NULL then NULL else last,
                  if |ss| > 0 then ss[..|ss| - 1] else ss, ws, at - {head}, q.Pop())
  {
    FirstJob(mem, head, hddhead, nethead, last, ss, ws, at, q);
    Popped(mem, mem - {head}, ss, ws, at, at - {head}, q, head);
    var ss' := if |ss| > 0 then ss[..|ss| - 1] else ss;
    PoppedEnds(mem, ss, ws, at, q, ss');
  }

  lemma PoppedEnds(mem: map<Address, WriteJob>, ss: seq<Address>, ws: seq<Address>, at: map<Address, Place>, q: Queue,
                   ss': seq<Address>)
    requires q.Valid() && q.Ready() && Linked(mem, ss, ws, q) && Placed(mem, ss, ws, at, q.done)
    requires ss' == if |ss| > 0 then ss[..|ss| - 1] else ss
    ensures LastOf(ss', ws, q.Pop().done) ==
            if FirstOf(ss', ws, q.Pop().done) == NULL then NULL else LastOf(ss, ws, q.done)
  {
    if |ss'| > 0 {
      PlaceOf(mem, ss, ws, at, q.done, OfStatus(|ss'| - 1));
    } else if q.Pop().done < |ws| {
      PlaceOf(mem, ss, ws, at, q.done, OfWrite(q.Pop().done));
    }
  }

  /** write_xchg. A job is freed by taking its address out of the memory. */
  class Exchange {
    var mem: map<Address, WriteJob>
    var head: Address
    var hddhead: Address
    var nethead: Address
    var last: Address                // the job whose link is the tail; null when that link is head itself
    ghost var ss: seq<Address>
    ghost var ws: seq<Address>
    ghost var at: map<Address, Place>
    ghost var model: Queue

    ghost predicate Valid()
      reads this
    {
      Holds(mem, head, hddhead, nethead, last, ss, ws, at, model)
    }

    constructor ()
      ensures Valid() && model == Queue([], [], 0, 0, 0) && mem == map[]
    {
      mem := map[];
      head, hddhead, nethead, last := NULL, NULL, NULL, NULL;
      ss, ws, at, model := [], [], map[], Queue([], [], 0, 0, 0);
    }

    /** A job goes behind the last one; cursors that were null point at it. */
    method Link(job: WriteJob, a: Address)
      requires NULL !in mem && (last != NULL ==> last in mem)
      modifies `mem, `head, `hddhead, `nethead, `last
      ensures mem == Relinked(old(mem), old(last), a)[a := job] && last == a
      ensures head == if old(last) == NULL then a else old(head)
      ensures hddhead == if old(hddhead) == NULL then a else old(hddhead)
      ensures nethead == if old(nethead) == NULL then a else old(nethead)
    {
      if last == NULL {
        head := a;
      } else {
        mem := mem[last := mem[last].(next := a)];
      }
      mem := mem[a := job];
      last := a;
      if hddhead == NULL {
        hddhead := a;
      }
      if nethead == NULL {
        nethead := a;
      }
    }

    /** A data packet from the previous server, in a job the allocator put at address a. */
    method Append(p: Packet, a: Address)
      requires Valid() && a != NULL && a !in mem
      modifies this
      ensures Valid() && model == old(model).Enqueue(p)
      ensures old(hddhead) != NULL ==> hddhead == old(hddhead)
    {
      var job := WriteJob(Some(p), p.writeid, false, false, PENDING, PENDING, NULL);
      AppendedHolds(mem, head, hddhead, nethead, last, ss, ws, at, model, p, a, Relinked(mem, last, a)[a := job]);
      Link(job, a);
      at := at[a := OfWrite(|ws|)];
      ws := ws + [a];
      model := model.Enqueue(p);
    }

    /** A status for write id 0 from the next server. */
    method Announce(status: nat, a: Address)
      requires Valid() && a != NULL && a !in mem
      modifies this
      ensures Valid() && model == old(model).Announce(status)
      ensures hddhead == old(hddhead)
    {
      AnnouncedHolds(mem, head, hddhead, nethead, last, ss, ws, at, model, status, a);
      var job := WriteJob(None, 0, true, true, OK, status, head);
      mem := mem[a := job];
      head := a;
      if job.next == NULL {
        last := a;
      }
      at := at[a := OfStatus(|ss|)];
      ss := ss + [a];
      model := model.Announce(status);
    }

    /** The disk thread is done with the job under its cursor, which is still there. */
    method HddDone(job: Address, status: nat)
      requires Valid() && job == hddhead != NULL
      modifies this
      ensures Valid()
      ensures old(model.hdd < |model.writes|) && model == old(model).HddDone(status)
    {
      NeverDangling(mem, head, hddhead, nethead, last, ss, ws, at, model);
      assert WriteAt(mem, ws, model, model.hdd);
      var done := mem[job].(hddstatus := status, hddAck := true);
      Touched(mem, mem[job := done], ss, ws, at, model, model.HddDone(status), model.hdd, done);
      mem := mem[job := done];
      hddhead := mem[job].next;
      model := model.HddDone(status);
    }

    /** A status from the next server for a write. */
    method NetDone(writeid: nat, status: nat) returns (ok: bool)
      requires Valid()
      modifies this
      ensures Valid() && ok == old(model).Awaits(writeid)
      ensures model == if ok then old(model).NetDone(status) else old(model)
      ensures hddhead == old(hddhead)
    {
      NeverDangling(mem, head, hddhead, nethead, last, ss, ws, at, model);
      var job := nethead;
      if job != NULL {
        assert WriteAt(mem, ws, model, model.net);
      }
      if job == NULL || writeid != mem[job].writeid {
        return false;
      }
      var done := mem[job].(netstatus := status, netAck := true);
      Touched(mem, mem[job := done], ss, ws, at, model, model.NetDone(status), model.net, done);
      mem := mem[job := done];
      nethead := mem[job].next;
      model := model.NetDone(status);
      return true;
    }

    /** Takes the first job off when it is complete and frees it. Neither cursor is on it. */
    method FreeHead()
      requires Valid() && head != NULL && head in mem && model.Ready()
      modifies this
      ensures Valid() && model == old(model).Pop() && mem == old(mem - {head})
      ensures hddhead == old(hddhead) && nethead == old(nethead)
    {
      var job := head;
      PoppedHolds(mem, head, hddhead, nethead, last, ss, ws, at, model, mem[job].next);
      head := mem[job].next;
      if head == NULL {
        last := NULL;
      }
      mem := mem - {job};
      at := at - {job};
      ss := if |ss| > 0 then ss[..|ss| - 1] else ss;
      model := model.Pop();
    }

    method Pop() returns (ready: bool, writeid: nat)
      requires Valid()
      modifies this
      ensures Valid() && ready == old(model).Ready()
      ensures model == if ready then old(model).Pop() else old(model)
      ensures ready ==> old(head in mem) && mem == old(mem - {head}) && writeid == old(model).FirstId()
      ensures !ready ==> mem == old(mem)
      ensures hddhead == old(hddhead) && nethead == old(nethead)
    {
      FirstJob(mem, head, hddhead, nethead, last, ss, ws, at, model);
      writeid := 0;
      var job := head;
      if job == NULL
         || !(mem[job].hddAck && mem[job].netAck && mem[job].hddstatus == OK && mem[job].netstatus == OK) {
        return false, writeid;
      }
      writeid := mem[job].writeid;
      FreeHead();
      return true, writeid;
    }
  }
}
