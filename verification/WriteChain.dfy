/**
 A chain of servers that write one chunk: mainserv_write_middle with its disk thread on all servers
 but the last, mainserv_write_last on the last. A run is any interleaving of the steps below; the
 channels are first-in first-out, so what is under way on one is what its writer sent and its reader
 has not read yet.
 */
module WriteChain {
  import opened Options
  import opened WriteQueue

  datatype Status = Status(writeid: nat, code: nat)

  datatype Thread = Idle | Writing | Ended

  datatype Phase = Running | Closing | Closed

  datatype Server = Server(
    taken: seq<Packet>,      // data packets read from the previous server, each passed on as it was read
    queue: Queue,            // unused on the last server
    thread: Thread,          // the disk thread
    stored: seq<Packet>,     // packets for which hdd_write succeeded
    heard: seq<Status>,      // statuses read from the next server
    sent: seq<Status>,       // statuses sent to the previous server, or by the first server to the client
    phase: Phase)

  datatype Chain = Chain(client: seq<Packet>, servers: seq<Server>) {
    predicate Middle(i: nat) { i + 1 < |servers| }

    predicate Last(i: nat) { i + 1 == |servers| }

    /** The packets sent to server i so far. */
    function Upstream(i: nat): seq<Packet>
      requires i < |servers|
    {
      if i == 0 then client else servers[i - 1].taken
    }

    function With(i: nat, s: Server): Chain
      requires i < |servers|
    {
      this.(servers := servers[i := s])
    }
  }

  const EMPTY: Queue := Queue([], [], 0, 0, 0)

  /** A chain of n servers; the last one has reported that the chain is up. */
  function Init(n: nat): (c: Chain)
    requires n > 0
    ensures |c.servers| == n
  {
    Chain([], seq(n, i requires 0 <= i < n =>
      Server([], EMPTY, Idle, [], [], if i + 1 == n then [Status(0, OK)] else [], Running)))
  }

  // ----- Steps -----

  datatype Step =
    | Send(p: Packet)                                  // the client sends a data packet
    | Take(i: nat)                                     // a middle server reads one and passes it on
    | Enqueue(i: nat)                                  // and queues it
    | Start(i: nat)                                    // the disk thread begins with the job at its cursor
    | Finish(i: nat, code: nat)                        // and ends
    | Hear(i: nat)                                     // a middle server reads a status
    | Reply(i: nat, delivered: bool)                   // it takes a finished job off and reports it
    | Close(i: nat, report: Option<Status>)            // a server leaves its loop, on any error or at the end
    | EndThread(i: nat)                                // the disk thread sees the end
    | Free(i: nat)                                     // the thread was joined, the remaining jobs are freed
    | Write(i: nat, code: nat, delivered: bool)        // the last server reads a packet, writes it and reports

  function TakeNext(c: Chain, i: nat): Server
    requires i < |c.servers|
  {
    var s := c.servers[i];
    if s.phase == Running && |s.queue.writes| == |s.taken| < |c.Upstream(i)| then
      s.(taken := s.taken + [c.Upstream(i)[|s.taken|]])
    else s
  }

  function EnqueueNext(s: Server): Server {
    if s.phase == Running && |s.queue.writes| < |s.taken| then
      s.(queue := s.queue.Enqueue(s.taken[|s.queue.writes|]))
    else s
  }

  function StartWrite(s: Server): Server {
    if s.phase != Closed && s.thread == Idle && s.queue.hdd < |s.queue.writes| then s.(thread := Writing) else s
  }

  function FinishWrite(s: Server, code: nat): Server {
    if s.thread == Writing && s.queue.hdd < |s.queue.writes| then
      if code == OK then
        s.(queue := s.queue.HddDone(code), thread := Idle, stored := s.stored + [s.queue.writes[s.queue.hdd].packet])
      else
        s.(queue := s.queue.HddDone(code), thread := Ended)
    else s
  }

  function HearStatus(s: Server, st: Status): Server {
    var s' := s.(heard := s.heard + [st]);
    if st.writeid == 0 then s'.(queue := s.queue.Announce(st.code))
    else if s.queue.Awaits(st.writeid) then s'.(queue := s.queue.NetDone(st.code))
    else s'.(phase := Closing)
  }

  function HearNext(c: Chain, i: nat): Server
    requires c.Middle(i)
  {
    var s, next := c.servers[i], c.servers[i + 1];
    if s.phase == Running && |s.heard| < |next.sent| then HearStatus(s, next.sent[|s.heard|]) else s
  }

  function ReplyFirst(s: Server, delivered: bool): Server {
    if s.phase == Running && s.queue.Valid() && s.queue.Ready() then
      var s' := s.(queue := s.queue.Pop());
      if delivered then s'.(sent := s.sent + [Status(s.queue.FirstId(), OK)]) else s'.(phase := Closing)
    else s
  }

  /** A middle server reports errors for write id 0 only, the last server for any write. */
  function CloseLoop(s: Server, report: Option<Status>, last: bool): Server {
    if s.phase == Running && (report.Some? ==> report.value.code != OK && (last || report.value.writeid == 0)) then
      s.(phase := Closing, sent := if report.Some? then s.sent + [report.value] else s.sent)
    else s
  }

  function ThreadSeesEnd(s: Server): Server {
    if s.phase == Closing && s.thread == Idle then s.(thread := Ended) else s
  }

  function FreeJobs(s: Server): Server {
    if s.phase == Closing && s.thread == Ended then s.(phase := Closed) else s
  }

  function WritePacket(s: Server, p: Packet, code: nat, delivered: bool): Server {
    var s' := s.(
      taken := s.taken + [p],
      stored := if code == OK then s.stored + [p] else s.stored,
      sent := if delivered then s.sent + [Status(p.writeid, code)] else s.sent);
    if code == OK && delivered then s' else s'.(phase := Closing)
  }

  function WriteNext(c: Chain, i: nat, code: nat, delivered: bool): Server
    requires i < |c.servers|
  {
    var s := c.servers[i];
    if s.phase == Running && |s.taken| < |c.Upstream(i)| then
      WritePacket(s, c.Upstream(i)[|s.taken|], code, delivered)
    else s
  }

  /** A step; one that is not possible changes nothing. */
  function Next(c: Chain, step: Step): (d: Chain)
    ensures |d.servers| == |c.servers|
  {
    match step
    case Send(p) => c.(client := c.client + [p])
    case Take(i) => if c.Middle(i) then c.With(i, TakeNext(c, i)) else c
    case Enqueue(i) => if c.Middle(i) then c.With(i, EnqueueNext(c.servers[i])) else c
    case Start(i) => if c.Middle(i) then c.With(i, StartWrite(c.servers[i])) else c
    case Finish(i, code) => if c.Middle(i) then c.With(i, FinishWrite(c.servers[i], code)) else c
    case Hear(i) => if c.Middle(i) then c.With(i, HearNext(c, i)) else c
    case Reply(i, delivered) => if c.Middle(i) then c.With(i, ReplyFirst(c.servers[i], delivered)) else c
    case Close(i, report) => if i < |c.servers| then c.With(i, CloseLoop(c.servers[i], report, c.Last(i))) else c
    case EndThread(i) => if i < |c.servers| then c.With(i, ThreadSeesEnd(c.servers[i])) else c
    case Free(i) => if i < |c.servers| then c.With(i, FreeJobs(c.servers[i])) else c
    case Write(i, code, delivered) => if c.Last(i) then c.With(i, WriteNext(c, i, code, delivered)) else c
  }

  function Run(c: Chain, steps: seq<Step>): (d: Chain)
    ensures |d.servers| == |c.servers|
  {
    if |steps| == 0 then c else Next(Run(c, steps[..|steps| - 1]), steps[|steps| - 1])
  }

  // ----- Statuses and packets with a write id -----

  function Nonzero(s: seq<Status>): seq<Status> {
    if |s| == 0 then []
    else
      var r := Nonzero(s[..|s| - 1]);
      if s[|s| - 1].writeid == 0 then r else r + [s[|s| - 1]]
  }

  function NonzeroPackets(s: seq<Packet>): (r: seq<Packet>)
    ensures |r| <= |s|
  {
    if |s| == 0 then []
    else
      var r := NonzeroPackets(s[..|s| - 1]);
      if s[|s| - 1].writeid == 0 then r else r + [s[|s| - 1]]
  }

  lemma NonzeroPush(s: seq<Status>, st: Status)
    ensures Nonzero(s + [st]) == if st.writeid == 0 then Nonzero(s) else Nonzero(s) + [st]
  {
    assert (s + [st])[..|s|] == s;
  }

  lemma PacketsPush(s: seq<Packet>, p: Packet)
    ensures NonzeroPackets(s + [p]) == if p.writeid == 0 then NonzeroPackets(s) else NonzeroPackets(s) + [p]
  {
    assert (s + [p])[..|s|] == s;
  }

  lemma {:induction false} NonzeroPrefix(s: seq<Status>, t: seq<Status>)
    requires s <= t
    ensures Nonzero(s) <= Nonzero(t)
  {
    if |s| < |t| {
      NonzeroPrefix(s, t[..|t| - 1]);
    } else {
      assert s == t;
    }
  }

  lemma {:induction false} PacketsPrefix(s: seq<Packet>, t: seq<Packet>)
    requires s <= t
    ensures NonzeroPackets(s) <= NonzeroPackets(t)
  {
    if |s| < |t| {
      PacketsPrefix(s, t[..|t| - 1]);
    } else {
      assert s == t;
    }
  }

  lemma {:induction false} AllNonzero(s: seq<Packet>)
    requires forall k :: 0 <= k < |s| ==> s[k].writeid != 0
    ensures NonzeroPackets(s) == s
  {
    if |s| > 0 {
      AllNonzero(s[..|s| - 1]);
    }
  }

  // ----- Invariants -----

  /** The queue holds what was taken; the cursors count what was stored and heard; replies follow. */
  ghost predicate MiddleQueue(s: Server) {
    && s.queue.Valid()
    && |s.queue.writes| <= |s.taken|
    && (forall k :: 0 <= k < |s.queue.writes| ==> s.queue.writes[k].packet == s.taken[k])
  }

  ghost predicate MiddleDisk(s: Server) {
    && s.queue.done <= |s.stored| <= s.queue.hdd <= |s.queue.writes|
    && s.stored <= s.taken
    && (forall k :: 0 <= k < s.queue.hdd && s.queue.writes[k].hddstatus == OK ==> k < |s.stored|)
    && (s.thread != Ended ==> s.queue.hdd == |s.stored|)
    && (s.thread == Writing ==> s.queue.hdd < |s.queue.writes| && s.phase != Closed)
  }

  ghost predicate MiddleNet(s: Server) {
    var h := Nonzero(s.heard);
    && s.queue.net <= |s.queue.writes| && s.queue.net <= |h|
    && (s.phase == Running ==> |h| == s.queue.net)
    && (forall k :: 0 <= k < s.queue.net ==> h[k].code == s.queue.writes[k].netstatus && s.queue.writes[k].packet.writeid != 0)
  }

  ghost predicate MiddleReplies(s: Server) {
    var a := Nonzero(s.sent);
    && |a| <= s.queue.done <= |s.queue.writes|
    && (s.phase == Running ==> |a| == s.queue.done)
    && (forall k :: 0 <= k < |a| ==> a[k] == Status(s.queue.writes[k].packet.writeid, OK))
  }

  ghost predicate MiddleInv(s: Server) {
    MiddleQueue(s) && MiddleDisk(s) && MiddleNet(s) && MiddleReplies(s)
  }

  /** The k-th acknowledgement is that of the k-th packet. */
  ghost predicate AcksMatch(a: seq<Status>, w: seq<Packet>) {
    forall k :: 0 <= k < |a| && a[k].code == OK ==> k < |w| && a[k].writeid == w[k].writeid
  }

  ghost predicate LastInv(s: Server) {
    var a, w := Nonzero(s.sent), NonzeroPackets(s.stored);
    && s.stored <= s.taken
    && (s.phase == Running ==> s.stored == s.taken && |a| == |w|)
    && AcksMatch(a, w)
  }

  /** What a server knows and what its neighbours told it. */
  ghost predicate Joined(c: Chain, i: nat)
    requires i < |c.servers|
  {
    && c.servers[i].taken <= c.Upstream(i)
    && (c.Middle(i) ==> c.servers[i].heard <= c.servers[i + 1].sent)
  }

  ghost predicate RoleInv(s: Server, last: bool) {
    if last then LastInv(s) else MiddleInv(s)
  }

  ghost predicate ServerInv(c: Chain, i: nat)
    requires i < |c.servers|
  {
    RoleInv(c.servers[i], c.Last(i))
  }

  ghost predicate Inv(c: Chain) {
    && |c.servers| > 0
    && (forall i: nat :: i < |c.servers| ==> ServerInv(c, i))
    && (forall i: nat :: i < |c.servers| ==> Joined(c, i))
  }

  lemma InitInv(n: nat)
    requires n > 0
    ensures Inv(Init(n))
  {
    var c := Init(n);
    NonzeroPush([], Status(0, OK));
    assert [] + [Status(0, OK)] == [Status(0, OK)];
    forall i: nat | i < n ensures ServerInv(c, i) && Joined(c, i) {
    }
  }

  // ----- Every step keeps the invariant -----

  /** A server that only grew, by what was there to take and to hear. */
  ghost predicate Grew(c: Chain, i: nat, s: Server)
    requires i < |c.servers|
  {
    && c.servers[i].taken <= s.taken <= c.Upstream(i)
    && c.servers[i].sent <= s.sent
    && (c.Middle(i) ==> s.heard <= c.servers[i + 1].sent)
  }

  lemma ReplacedJoined(c: Chain, i: nat, s: Server, j: nat)
    requires i < |c.servers| && j < |c.servers| && Joined(c, j) && Grew(c, i, s)
    ensures Joined(c.With(i, s), j)
  {
  }

  lemma Replaced(c: Chain, i: nat, s: Server)
    requires Inv(c) && i < |c.servers|
    requires RoleInv(s, c.Last(i)) && Grew(c, i, s)
    ensures Inv(c.With(i, s))
  {
    var d := c.With(i, s);
    forall j: nat | j < |d.servers| ensures Joined(d, j) {
      ReplacedJoined(c, i, s, j);
    }
    forall j: nat | j < |d.servers| ensures ServerInv(d, j) {
      assert ServerInv(c, j);
    }
  }

  lemma TakeKeeps(c: Chain, i: nat)
    requires Inv(c) && c.Middle(i)
    ensures Inv(c.With(i, TakeNext(c, i)))
  {
    assert ServerInv(c, i) && Joined(c, i);
    Replaced(c, i, TakeNext(c, i));
  }

  lemma EnqueueKeeps(s: Server)
    requires MiddleInv(s)
    ensures MiddleInv(EnqueueNext(s))
  {
  }

  lemma StartKeeps(s: Server)
    requires MiddleInv(s)
    ensures MiddleInv(StartWrite(s))
  {
  }

  lemma FinishKeeps(s: Server, code: nat)
    requires MiddleInv(s)
    ensures MiddleInv(FinishWrite(s, code))
  {
  }

  lemma HearKeeps(s: Server, st: Status)
    requires MiddleInv(s) && s.phase == Running
    ensures MiddleInv(HearStatus(s, st))
  {
    NonzeroPush(s.heard, st);
  }

  lemma ReplyKeeps(s: Server, delivered: bool)
    requires MiddleInv(s)
    ensures MiddleInv(ReplyFirst(s, delivered))
  {
    if s.phase == Running && s.queue.Ready() && delivered {
      NonzeroPush(s.sent, Status(s.queue.FirstId(), OK));
    }
  }

  lemma CloseKeeps(s: Server, report: Option<Status>)
    requires MiddleInv(s)
    ensures MiddleInv(CloseLoop(s, report, false))
  {
    if report.Some? {
      NonzeroPush(s.sent, report.value);
    }
  }

  lemma CloseLastKeeps(s: Server, report: Option<Status>)
    requires LastInv(s)
    ensures LastInv(CloseLoop(s, report, true))
  {
    if report.Some? {
      NonzeroPush(s.sent, report.value);
    }
  }

  lemma EndKeeps(s: Server)
    ensures MiddleInv(s) ==> MiddleInv(ThreadSeesEnd(s)) && MiddleInv(FreeJobs(s))
    ensures LastInv(s) ==> LastInv(ThreadSeesEnd(s)) && LastInv(FreeJobs(s))
  {
  }

  lemma AcksPush(a: seq<Status>, w: seq<Packet>, p: Packet, code: nat)
    requires AcksMatch(a, w) && |a| == |w|
    ensures AcksMatch(a, w + [p])
    ensures AcksMatch(a + [Status(p.writeid, code)], if code == OK then w + [p] else w)
  {
  }

  lemma WriteKeeps(s: Server, p: Packet, code: nat, delivered: bool)
    requires LastInv(s) && s.phase == Running
    ensures LastInv(WritePacket(s, p, code, delivered))
  {
    PacketsPush(s.stored, p);
    NonzeroPush(s.sent, Status(p.writeid, code));
    AcksPush(Nonzero(s.sent), NonzeroPackets(s.stored), p, code);
  }

  lemma SendKeeps(c: Chain, p: Packet)
    requires Inv(c)
    ensures Inv(c.(client := c.client + [p]))
  {
    var d := c.(client := c.client + [p]);
    forall j: nat | j < |d.servers| ensures Joined(d, j) {
      assert Joined(c, j);
    }
    forall j: nat | j < |d.servers| ensures ServerInv(d, j) {
      assert ServerInv(c, j);
    }
  }

  /** A step of a middle server that neither takes nor hears. */
  lemma MiddleKeeps(c: Chain, i: nat, s: Server)
    requires Inv(c) && c.Middle(i) && MiddleInv(s)
    requires s.taken == c.servers[i].taken && s.heard == c.servers[i].heard && c.servers[i].sent <= s.sent
    ensures Inv(c.With(i, s))
  {
    OwnStep(c, i);
    Replaced(c, i, s);
  }

  lemma EndStep(c: Chain, i: nat)
    requires Inv(c) && i < |c.servers|
    ensures Inv(c.With(i, ThreadSeesEnd(c.servers[i]))) && Inv(c.With(i, FreeJobs(c.servers[i])))
  {
    OwnStep(c, i);
    EndKeeps(c.servers[i]);
    Replaced(c, i, ThreadSeesEnd(c.servers[i]));
    Replaced(c, i, FreeJobs(c.servers[i]));
  }

  lemma WriteGrows(c: Chain, i: nat, code: nat, delivered: bool)
    requires c.Last(i) && Joined(c, i)
    ensures Grew(c, i, WriteNext(c, i, code, delivered))
  {
  }

  lemma WriteKeepsLast(c: Chain, i: nat, code: nat, delivered: bool)
    requires c.Last(i) && LastInv(c.servers[i])
    ensures LastInv(WriteNext(c, i, code, delivered))
  {
    var s := c.servers[i];
    if s.phase == Running && |s.taken| < |c.Upstream(i)| {
      WriteKeeps(s, c.Upstream(i)[|s.taken|], code, delivered);
    }
  }

  lemma WriteStep(c: Chain, i: nat, code: nat, delivered: bool)
    requires Inv(c) && c.Last(i)
    ensures Inv(c.With(i, WriteNext(c, i, code, delivered)))
  {
    OwnStep(c, i);
    WriteGrows(c, i, code, delivered);
    WriteKeepsLast(c, i, code, delivered);
    Replaced(c, i, WriteNext(c, i, code, delivered));
  }

  lemma EnqueueStep(c: Chain, i: nat)
    requires Inv(c) && c.Middle(i)
    ensures Inv(c.With(i, EnqueueNext(c.servers[i])))
  {
    OwnStep(c, i);
    EnqueueKeeps(c.servers[i]);
    MiddleKeeps(c, i, EnqueueNext(c.servers[i]));
  }

  lemma StartStep(c: Chain, i: nat)
    requires Inv(c) && c.Middle(i)
    ensures Inv(c.With(i, StartWrite(c.servers[i])))
  {
    OwnStep(c, i);
    StartKeeps(c.servers[i]);
    MiddleKeeps(c, i, StartWrite(c.servers[i]));
  }

  lemma FinishStep(c: Chain, i: nat, code: nat)
    requires Inv(c) && c.Middle(i)
    ensures Inv(c.With(i, FinishWrite(c.servers[i], code)))
  {
    OwnStep(c, i);
    FinishKeeps(c.servers[i], code);
    MiddleKeeps(c, i, FinishWrite(c.servers[i], code));
  }

  lemma ReplyStep(c: Chain, i: nat, delivered: bool)
    requires Inv(c) && c.Middle(i)
    ensures Inv(c.With(i, ReplyFirst(c.servers[i], delivered)))
  {
    OwnStep(c, i);
    ReplyKeeps(c.servers[i], delivered);
    MiddleKeeps(c, i, ReplyFirst(c.servers[i], delivered));
  }

  lemma StepKeeps(c: Chain, step: Step)
    requires Inv(c)
    ensures Inv(Next(c, step))
  {
    match step {
      case Send(p) => SendKeeps(c, p);
      case Take(i) => if c.Middle(i) { TakeKeeps(c, i); }
      case Enqueue(i) => if c.Middle(i) { EnqueueStep(c, i); }
      case Start(i) => if c.Middle(i) { StartStep(c, i); }
      case Finish(i, code) => if c.Middle(i) { FinishStep(c, i, code); }
      case Hear(i) => if c.Middle(i) { HearNextKeeps(c, i); }
      case Reply(i, delivered) => if c.Middle(i) { ReplyStep(c, i, delivered); }
      case Close(i, report) => if i < |c.servers| { CloseStep(c, i, report); }
      case EndThread(i) => if i < |c.servers| { EndStep(c, i); }
      case Free(i) => if i < |c.servers| { EndStep(c, i); }
      case Write(i, code, delivered) => if c.Last(i) { WriteStep(c, i, code, delivered); }
    }
  }

  lemma OwnStep(c: Chain, i: nat)
    requires Inv(c) && i < |c.servers|
    ensures ServerInv(c, i) && Joined(c, i)
  {
  }

  lemma HearNextKeeps(c: Chain, i: nat)
    requires Inv(c) && c.Middle(i)
    ensures Inv(c.With(i, HearNext(c, i)))
  {
    OwnStep(c, i);
    var s, next := c.servers[i], c.servers[i + 1];
    if s.phase == Running && |s.heard| < |next.sent| {
      HearKeeps(s, next.sent[|s.heard|]);
    }
    Replaced(c, i, HearNext(c, i));
  }

  lemma CloseStep(c: Chain, i: nat, report: Option<Status>)
    requires Inv(c) && i < |c.servers|
    ensures Inv(c.With(i, CloseLoop(c.servers[i], report, c.Last(i))))
  {
    OwnStep(c, i);
    if c.Last(i) {
      CloseLastKeeps(c.servers[i], report);
    } else {
      CloseKeeps(c.servers[i], report);
    }
    Replaced(c, i, CloseLoop(c.servers[i], report, c.Last(i)));
  }

  lemma {:induction false} RunKeeps(n: nat, steps: seq<Step>)
    requires n > 0
    ensures Inv(Run(Init(n), steps))
  {
    if |steps| == 0 {
      InitInv(n);
    } else {
      RunKeeps(n, steps[..|steps| - 1]);
      StepKeeps(Run(Init(n), steps[..|steps| - 1]), steps[|steps| - 1]);
    }
  }

  // ----- Safety -----

  /** An acknowledgement a server sent was heard from the server behind it. */
  lemma AckFromBehind(c: Chain, i: nat, k: nat)
    requires Inv(c) && c.Middle(i)
    requires k < |Nonzero(c.servers[i].sent)| && Nonzero(c.servers[i].sent)[k].code == OK
    ensures k < |Nonzero(c.servers[i + 1].sent)| && Nonzero(c.servers[i + 1].sent)[k].code == OK
  {
    OwnStep(c, i);
    NonzeroPrefix(c.servers[i].heard, c.servers[i + 1].sent);
    assert c.servers[i].queue.writes[k].netstatus == OK;
  }

  lemma {:induction false} AckFromAll(c: Chain, i: nat, k: nat)
    requires Inv(c) && i < |c.servers|
    requires k < |Nonzero(c.servers[0].sent)| && Nonzero(c.servers[0].sent)[k].code == OK
    ensures k < |Nonzero(c.servers[i].sent)| && Nonzero(c.servers[i].sent)[k].code == OK
  {
    if i > 0 {
      AckFromAll(c, i - 1, k);
      AckFromBehind(c, i - 1, k);
    }
  }

  /** What a server acknowledged it has stored. */
  lemma AckIsStored(c: Chain, i: nat, k: nat)
    requires Inv(c) && i < |c.servers|
    requires k < |Nonzero(c.servers[i].sent)| && Nonzero(c.servers[i].sent)[k].code == OK
    ensures k < |NonzeroPackets(c.servers[i].stored)|
    ensures Nonzero(c.servers[i].sent)[k].writeid == NonzeroPackets(c.servers[i].stored)[k].writeid
  {
    OwnStep(c, i);
    var s := c.servers[i];
    if c.Middle(i) {
      var first := s.stored[..s.queue.done];
      forall j | 0 <= j < |first| ensures first[j].writeid != 0 {
        assert s.queue.writes[j].packet == s.taken[j] == first[j];
      }
      AllNonzero(first);
      PacketsPrefix(first, s.stored);
    }
  }

  lemma {:induction false} StoredInOrder(c: Chain, i: nat)
    requires Inv(c) && i < |c.servers|
    ensures c.servers[i].taken <= c.client && c.servers[i].stored <= c.client
  {
    OwnStep(c, i);
    if i > 0 {
      StoredInOrder(c, i - 1);
    }
  }

  /**
   In every run of a chain of any length: the k-th status for a write that the client is sent, when it
   is OK, carries the id of the k-th packet the client sent, counting those with an id, and by then
   every server of the chain has stored that packet and all packets before it.
   */
  lemma AcknowledgedIsStored(n: nat, steps: seq<Step>, k: nat)
    requires n > 0
    requires var a := Nonzero(Run(Init(n), steps).servers[0].sent); k < |a| && a[k].code == OK
    ensures var c := Run(Init(n), steps);
            && k < |NonzeroPackets(c.client)|
            && Nonzero(c.servers[0].sent)[k].writeid == NonzeroPackets(c.client)[k].writeid
            && forall i :: 0 <= i < |c.servers| ==>
                 c.servers[i].stored <= c.client && k < |NonzeroPackets(c.servers[i].stored)|
  {
    var c := Run(Init(n), steps);
    RunKeeps(n, steps);
    forall i | 0 <= i < |c.servers|
      ensures c.servers[i].stored <= c.client && k < |NonzeroPackets(c.servers[i].stored)|
    {
      AckFromAll(c, i, k);
      AckIsStored(c, i, k);
      StoredInOrder(c, i);
    }
    AckIsStored(c, 0, k);
    PacketsPrefix(c.servers[0].stored, c.client);
  }

  /** While the disk thread works on a job that job is in the list, and nothing is freed under it. */
  lemma ThreadHasItsJob(n: nat, steps: seq<Step>, i: nat)
    requires n > 0
    requires Run(Init(n), steps).Middle(i) && Run(Init(n), steps).servers[i].thread == Writing
    ensures var s := Run(Init(n), steps).servers[i];
            s.phase != Closed && s.queue.Valid() && s.queue.done <= s.queue.hdd < |s.queue.writes|
  {
    RunKeeps(n, steps);
    OwnStep(Run(Init(n), steps), i);
  }
}
