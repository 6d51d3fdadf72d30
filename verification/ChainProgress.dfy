/**
 A write chain makes progress: as long as no server leaves its loop, no disk write fails and every
 packet has a write id, the client gets one OK for each of its packets, in their order.
 */
module ChainProgress {
  import opened WriteQueue
  import opened WriteChain

  // ----- What holds while nothing fails -----

  ghost predicate AllOk(s: seq<Status>) {
    forall k :: 0 <= k < |s| ==> s[k].code == OK
  }

  ghost predicate CodesOk(s: seq<nat>) {
    forall k :: 0 <= k < |s| ==> s[k] == OK
  }

  /** A running server sends nothing but OK, and a disk thread that goes on has had no failure. */
  ghost predicate Calm(s: Server) {
    && s.queue.hdd <= |s.queue.writes|
    && (s.phase == Running ==> AllOk(s.sent))
    && (s.thread != Ended ==> forall k :: 0 <= k < s.queue.hdd ==> s.queue.writes[k].hddstatus == OK)
    && (AllOk(s.heard) ==> CodesOk(s.queue.announced))
  }

  ghost predicate AllCalm(c: Chain) {
    forall i :: 0 <= i < |c.servers| ==> Calm(c.servers[i])
  }

  lemma TakeCalm(c: Chain, i: nat)
    requires i < |c.servers| && Calm(c.servers[i])
    ensures Calm(TakeNext(c, i))
  {
  }

  lemma QueueCalm(s: Server, code: nat)
    requires Calm(s)
    ensures Calm(EnqueueNext(s)) && Calm(StartWrite(s)) && Calm(FinishWrite(s, code))
    ensures Calm(ThreadSeesEnd(s)) && Calm(FreeJobs(s))
  {
  }

  lemma HearCalm(s: Server, st: Status)
    requires Calm(s)
    ensures Calm(HearStatus(s, st))
  {
    var t := HearStatus(s, st);
    if AllOk(t.heard) {
      forall k | 0 <= k < |s.heard| ensures s.heard[k].code == OK {
        assert t.heard[k] == s.heard[k];
      }
      assert t.heard[|s.heard|] == st;
    }
  }

  lemma ReplyCalm(s: Server, delivered: bool)
    requires Calm(s)
    ensures Calm(ReplyFirst(s, delivered))
  {
  }

  lemma CloseCalm(s: Server, step: Step, last: bool)
    requires Calm(s) && step.Close?
    ensures Calm(CloseLoop(s, step.report, last))
  {
  }

  lemma WriteCalm(s: Server, p: Packet, code: nat, delivered: bool)
    requires Calm(s)
    ensures Calm(WritePacket(s, p, code, delivered))
  {
  }

  lemma StepCalm(c: Chain, step: Step, j: nat)
    requires AllCalm(c) && j < |c.servers|
    ensures Calm(Next(c, step).servers[j])
  {
    var s := c.servers[j];
    assert Calm(s);
    if step.Send? || step.i != j {
      return;
    }
    match step {
      case Take(_) => TakeCalm(c, j);
      case Enqueue(_) => QueueCalm(s, 0);
      case Start(_) => QueueCalm(s, 0);
      case Finish(_, code) => QueueCalm(s, code);
      case Hear(_) => if c.Middle(j) && |s.heard| < |c.servers[j + 1].sent| { HearCalm(s, c.servers[j + 1].sent[|s.heard|]); }
      case Reply(_, delivered) => ReplyCalm(s, delivered);
      case Close(_, report) => CloseCalm(s, step, c.Last(j));
      case EndThread(_) => QueueCalm(s, 0);
      case Free(_) => QueueCalm(s, 0);
      case Write(_, code, delivered) =>
        if |s.taken| < |c.Upstream(j)| { WriteCalm(s, c.Upstream(j)[|s.taken|], code, delivered); }
    }
  }

  lemma {:induction false} RunCalm(n: nat, steps: seq<Step>)
    requires n > 0
    ensures AllCalm(Run(Init(n), steps))
  {
    if |steps| > 0 {
      var front := steps[..|steps| - 1];
      RunCalm(n, front);
      forall j | 0 <= j < |Run(Init(n), front).servers| ensures Calm(Run(Init(n), steps).servers[j]) {
        StepCalm(Run(Init(n), front), steps[|steps| - 1], j);
      }
    }
  }

  /** No server has left its loop, no disk write failed, and every packet has an id. */
  predicate Healthy(c: Chain) {
    && (forall i :: 0 <= i < |c.servers| ==> c.servers[i].phase == Running && c.servers[i].thread != Ended)
    && forall k :: 0 <= k < |c.client| ==> c.client[k].writeid != 0
  }

  ghost predicate Good(c: Chain) {
    Inv(c) && AllCalm(c) && Healthy(c)
  }

  // ----- Statuses and packets -----

  lemma {:induction false} NonzeroOk(s: seq<Status>)
    requires AllOk(s)
    ensures AllOk(Nonzero(s))
  {
    if |s| > 0 {
      NonzeroOk(s[..|s| - 1]);
    }
  }

  /** All a server stored has ids. */
  lemma StoredHasIds(c: Chain, i: nat)
    requires Good(c) && i < |c.servers|
    ensures c.servers[i].stored <= c.client && c.servers[i].taken <= c.client
    ensures NonzeroPackets(c.servers[i].stored) == c.servers[i].stored
  {
    StoredInOrder(c, i);
    AllNonzero(c.servers[i].stored);
  }

  /** Everything a server heard is OK, and so is everything that waits at the head of its queue. */
  lemma HeardOk(c: Chain, i: nat)
    requires Good(c) && c.Middle(i)
    ensures AllOk(c.servers[i].heard) && CodesOk(c.servers[i].queue.announced)
    ensures forall k :: 0 <= k < c.servers[i].queue.net ==>
              k < |c.servers[i].queue.writes| && c.servers[i].queue.writes[k].netstatus == OK
  {
    OwnStep(c, i);
    assert Calm(c.servers[i]) && Calm(c.servers[i + 1]);
    var s, next := c.servers[i], c.servers[i + 1];
    assert next.phase == Running;
    forall k | 0 <= k < |s.heard| ensures s.heard[k].code == OK {
      assert s.heard[k] == next.sent[k];
    }
    NonzeroOk(s.heard);
  }

  /** The client has an OK for each packet, in order. */
  ghost predicate Acknowledged(c: Chain)
    requires |c.servers| > 0
  {
    var a := Nonzero(c.servers[0].sent);
    |a| == |c.client| && forall k :: 0 <= k < |a| ==> a[k] == Status(c.client[k].writeid, OK)
  }

  lemma AcknowledgedInOrder(c: Chain)
    requires Good(c) && |Nonzero(c.servers[0].sent)| == |c.client|
    ensures Acknowledged(c)
  {
    var a := Nonzero(c.servers[0].sent);
    assert Calm(c.servers[0]) && c.servers[0].phase == Running;
    NonzeroOk(c.servers[0].sent);
    StoredHasIds(c, 0);
    forall k | 0 <= k < |a| ensures a[k] == Status(c.client[k].writeid, OK) {
      AckIsStored(c, 0, k);
    }
  }

  // ----- When nothing is left to do -----

  /** The steps of a chain that works: none of them fails, and the client sends nothing. */
  predicate Works(step: Step) {
    match step
    case Take(_) => true
    case Enqueue(_) => true
    case Start(_) => true
    case Finish(_, code) => code == OK
    case Hear(_) => true
    case Reply(_, delivered) => delivered
    case Write(_, code, delivered) => code == OK && delivered
    case _ => false
  }

  /** Server i has all packets, and has written them to its disk. */
  predicate Loaded(c: Chain, i: nat)
    requires i < |c.servers|
  {
    var s := c.servers[i];
    && |s.taken| == |c.client|
    && (c.Middle(i) ==> |s.queue.writes| == |c.client| == s.queue.hdd)
  }

  /** And has reported all of them. */
  predicate Answered(c: Chain, i: nat)
    requires i < |c.servers|
  {
    |Nonzero(c.servers[i].sent)| == |c.client|
  }

  /** Nothing is left for server i to take or to write. */
  predicate StillLoading(c: Chain, i: nat)
    requires i < |c.servers|
  {
    var s := c.servers[i];
    if c.Middle(i) then
      |s.taken| == |s.queue.writes| == |c.Upstream(i)| && s.thread != Writing && s.queue.hdd >= |s.queue.writes|
    else |s.taken| == |c.Upstream(i)|
  }

  lemma LoadedNow(c: Chain, i: nat)
    requires Good(c) && i < |c.servers| && StillLoading(c, i)
    requires i > 0 ==> Loaded(c, i - 1)
    ensures Loaded(c, i)
  {
    OwnStep(c, i);
  }

  /** The last server reports each packet as it writes it. */
  lemma LastAnswers(c: Chain, i: nat)
    requires Good(c) && c.Last(i) && Loaded(c, i)
    ensures Answered(c, i)
  {
    OwnStep(c, i);
    StoredHasIds(c, i);
  }

  /** A middle server that heard all statuses, and has none left to pass on, has passed on one for each packet. */
  lemma MiddleAnswers(c: Chain, i: nat)
    requires Good(c) && c.Middle(i) && Loaded(c, i) && Answered(c, i + 1)
    requires var s := c.servers[i]; |s.heard| == |c.servers[i + 1].sent| && s.queue.Valid() && !s.queue.Ready()
    ensures Answered(c, i)
  {
    OwnStep(c, i);
    HeardOk(c, i);
    var s := c.servers[i];
    assert Calm(s);
    assert s.heard == c.servers[i + 1].sent;
    assert s.queue.net == |c.client|;
    assert |s.queue.announced| == 0;
  }

  /** No step of a working chain is possible. */
  ghost predicate Quiet(c: Chain) {
    forall step :: Works(step) ==> Next(c, step) == c
  }

  lemma Same(c: Chain, i: nat, s: Server)
    requires i < |c.servers| && c.With(i, s) == c
    ensures s == c.servers[i]
  {
    assert c.With(i, s).servers[i] == s;
  }

  lemma QuietMiddle(c: Chain, i: nat)
    requires Quiet(c) && Good(c) && c.Middle(i)
    ensures StillLoading(c, i)
  {
    OwnStep(c, i);
    var s := c.servers[i];
    assert s.phase == Running && s.thread != Ended;
    assert Works(Take(i)) && Works(Enqueue(i)) && Works(Start(i)) && Works(Finish(i, OK));
    Same(c, i, TakeNext(c, i));
    Same(c, i, EnqueueNext(s));
    Same(c, i, StartWrite(s));
    Same(c, i, FinishWrite(s, OK));
  }

  lemma QuietLast(c: Chain, i: nat)
    requires Quiet(c) && Good(c) && c.Last(i)
    ensures StillLoading(c, i)
  {
    OwnStep(c, i);
    assert c.servers[i].phase == Running;
    assert Works(Step.Write(i, OK, true));
    Same(c, i, WriteNext(c, i, OK, true));
  }

  lemma QuietStatuses(c: Chain, i: nat)
    requires Quiet(c) && Good(c) && c.Middle(i)
    ensures var s := c.servers[i]; |s.heard| == |c.servers[i + 1].sent| && s.queue.Valid() && !s.queue.Ready()
  {
    OwnStep(c, i);
    var s := c.servers[i];
    assert s.phase == Running;
    assert Works(Hear(i)) && Works(Reply(i, true));
    Same(c, i, HearNext(c, i));
    Same(c, i, ReplyFirst(s, true));
  }

  lemma {:induction false} QuietLoads(c: Chain, i: nat)
    requires Quiet(c) && Good(c) && i < |c.servers|
    ensures Loaded(c, i)
  {
    if i > 0 {
      QuietLoads(c, i - 1);
    }
    if c.Middle(i) {
      QuietMiddle(c, i);
    } else {
      QuietLast(c, i);
    }
    LoadedNow(c, i);
  }

  lemma {:induction false} QuietAnswers(c: Chain, i: nat)
    requires Quiet(c) && Good(c) && i < |c.servers|
    ensures Answered(c, i)
    decreases |c.servers| - i
  {
    QuietLoads(c, i);
    if c.Middle(i) {
      QuietAnswers(c, i + 1);
      QuietStatuses(c, i);
      MiddleAnswers(c, i);
    } else {
      LastAnswers(c, i);
    }
  }

  /** In every run of a healthy chain that has come to rest, the client has an OK for each packet. */
  lemma RestIsAcknowledged(n: nat, steps: seq<Step>)
    requires n > 0 && Healthy(Run(Init(n), steps)) && Quiet(Run(Init(n), steps))
    ensures Acknowledged(Run(Init(n), steps))
  {
    RunKeeps(n, steps);
    RunCalm(n, steps);
    QuietAnswers(Run(Init(n), steps), 0);
    AcknowledgedInOrder(Run(Init(n), steps));
  }

  // ----- And a healthy chain can always come to rest -----

  lemma {:induction false} RunOn(c: Chain, a: seq<Step>, b: seq<Step>)
    ensures Run(c, a + b) == Run(Run(c, a), b)
  {
    if |b| == 0 {
      assert a + b == a;
    } else {
      var front := b[..|b| - 1];
      RunOn(c, a, front);
      assert (a + b)[..|a + b| - 1] == a + front;
    }
  }

  lemma RunFirst(c: Chain, step: Step, rest: seq<Step>)
    ensures Run(c, [step] + rest) == Run(Next(c, step), rest)
  {
    RunOn(c, [step], rest);
    assert [step][..0] == [];
  }

  /** One server changed, in a way that keeps the chain healthy. */
  lemma StaysGood(c: Chain, step: Step, i: nat, s: Server)
    requires Good(c) && i < |c.servers| && Next(c, step) == c.With(i, s)
    requires s.phase == Running && s.thread != Ended
    ensures Good(Next(c, step))
  {
    StepKeeps(c, step);
    forall j | 0 <= j < |c.servers| ensures Calm(Next(c, step).servers[j]) {
      StepCalm(c, step, j);
    }
  }

  /** What server i has left to take and to write. */
  function Load(c: Chain, i: nat): int
    requires i < |c.servers|
  {
    var s, n := c.servers[i], |c.client|;
    if c.Middle(i) then
      (n - |s.taken|) + (n - |s.queue.writes|) + 2 * (n - s.queue.hdd) - (if s.thread == Writing then 1 else 0)
    else n - |s.taken|
  }

  function LoadStep(c: Chain, i: nat): Step
    requires i < |c.servers|
  {
    var s := c.servers[i];
    if !c.Middle(i) then Step.Write(i, OK, true)
    else if |s.queue.writes| < |s.taken| then Enqueue(i)
    else if |s.taken| < |c.Upstream(i)| then Take(i)
    else if s.thread == Writing then Finish(i, OK)
    else Start(i)
  }

  lemma LoadFits(c: Chain, i: nat)
    requires Good(c) && i < |c.servers|
    ensures Load(c, i) >= 0
  {
    OwnStep(c, i);
    StoredHasIds(c, i);
  }

  /** Only server i changes, in what it took and wrote. */
  ghost predicate LoadsOnly(c: Chain, d: Chain, i: nat) {
    && d.client == c.client && |d.servers| == |c.servers|
    && (forall j :: 0 <= j < |c.servers| && j != i ==> d.servers[j] == c.servers[j])
  }

  lemma LoadMore(c: Chain, i: nat)
    requires Good(c) && i < |c.servers| && !StillLoading(c, i)
    ensures var d := Next(c, LoadStep(c, i)); Good(d) && LoadsOnly(c, d, i) && Load(d, i) < Load(c, i)
  {
    OwnStep(c, i);
    var step := LoadStep(c, i);
    var d := Next(c, step);
    assert c.servers[i].phase == Running && c.servers[i].thread != Ended;
    StaysGood(c, step, i, d.servers[i]);
  }

  /** Server i gets all packets that are there for it, and writes them. */
  lemma {:induction false} LoadServer(c: Chain, i: nat) returns (more: seq<Step>)
    requires Good(c) && i < |c.servers|
    ensures var d := Run(c, more); Good(d) && LoadsOnly(c, d, i) && StillLoading(d, i)
    decreases Load(c, i)
  {
    more := [];
    if !StillLoading(c, i) {
      var step := LoadStep(c, i);
      LoadMore(c, i);
      LoadFits(Next(c, step), i);
      more := LoadServer(Next(c, step), i);
      RunFirst(c, step, more);
      more := [step] + more;
    }
  }

  ghost predicate AllLoaded(c: Chain, n: nat) {
    n <= |c.servers| && forall i :: 0 <= i < n ==> Loaded(c, i)
  }

  lemma {:induction false} LoadAll(c: Chain, n: nat) returns (more: seq<Step>)
    requires Good(c) && n <= |c.servers|
    ensures var d := Run(c, more); Good(d) && d.client == c.client && |d.servers| == |c.servers| && AllLoaded(d, n)
  {
    more := [];
    if n > 0 {
      var before := LoadAll(c, n - 1);
      var d := Run(c, before);
      var rest := LoadServer(d, n - 1);
      var e := Run(d, rest);
      RunOn(c, before, rest);
      forall i | 0 <= i < n - 1 ensures Loaded(e, i) {
        assert Loaded(d, i);
      }
      LoadedNow(e, n - 1);
      more := before + rest;
    }
  }

  lemma NextIsPrefix<T>(a: seq<T>, b: seq<T>)
    requires a <= b && |a| < |b|
    ensures a + [b[|a|]] <= b
  {
    assert b == a + [b[|a|]] + b[|a| + 1..];
  }

  lemma PrefixAt<T>(a: seq<T>, b: seq<T>, k: nat)
    requires a <= b && k < |a|
    ensures k < |b| && b[k] == a[k]
  {
  }

  /** The next status with an id is the one after those heard. */
  lemma NextStatus(heard: seq<Status>, sent: seq<Status>)
    requires heard <= sent && |heard| < |sent| && sent[|heard|].writeid != 0
    ensures |Nonzero(heard)| < |Nonzero(sent)| && Nonzero(sent)[|Nonzero(heard)|] == sent[|heard|]
  {
    var upTo := heard + [sent[|heard|]];
    NonzeroPush(heard, sent[|heard|]);
    NextIsPrefix(heard, sent);
    NonzeroPrefix(upTo, sent);
    PrefixAt(Nonzero(upTo), Nonzero(sent), |Nonzero(heard)|);
  }

  /** The k-th status with an id that a server sent is that of the k-th packet. */
  lemma StatusOfPacket(c: Chain, i: nat, k: nat)
    requires Good(c) && i < |c.servers| && k < |Nonzero(c.servers[i].sent)|
    ensures k < |c.servers[i].taken| && Nonzero(c.servers[i].sent)[k].writeid == c.servers[i].taken[k].writeid
  {
    var s := c.servers[i];
    assert Calm(s) && s.phase == Running;
    NonzeroOk(s.sent);
    AckIsStored(c, i, k);
    StoredHasIds(c, i);
    OwnStep(c, i);
  }

  /** A status that a middle server hears is the one it waits for, once it has queued what it passed on. */
  lemma HeardIsAwaited(c: Chain, i: nat)
    requires Good(c) && c.Middle(i) && |c.servers[i].queue.writes| == |c.servers[i].taken|
    requires |c.servers[i].heard| < |c.servers[i + 1].sent|
    ensures var s, st := c.servers[i], c.servers[i + 1].sent[|c.servers[i].heard|];
            st.writeid == 0 || s.queue.Awaits(st.writeid)
  {
    var s, next := c.servers[i], c.servers[i + 1];
    OwnStep(c, i);
    OwnStep(c, i + 1);
    if next.sent[|s.heard|].writeid != 0 {
      assert s.phase == Running;
      NextStatus(s.heard, next.sent);
      StatusOfPacket(c, i + 1, s.queue.net);
      assert next.taken[s.queue.net] == s.taken[s.queue.net];
    }
  }

  /** What server i has left to hear and to pass on. */
  function Statuses(c: Chain, i: nat): int
    requires c.Middle(i)
  {
    var s := c.servers[i];
    2 * (|c.servers[i + 1].sent| - |s.heard|) + |s.queue.announced| + (|s.queue.writes| - s.queue.done)
  }

  function StatusStep(c: Chain, i: nat): Step
    requires c.Middle(i)
  {
    if |c.servers[i].heard| < |c.servers[i + 1].sent| then Hear(i) else Reply(i, true)
  }

  predicate AllPassed(c: Chain, i: nat)
    requires c.Middle(i)
  {
    var s := c.servers[i];
    |s.heard| >= |c.servers[i + 1].sent| && s.queue.Valid() && !s.queue.Ready()
  }

  /** What server i took and wrote stays. */
  ghost predicate StatusesOnly(c: Chain, d: Chain, i: nat)
    requires i < |c.servers|
  {
    && LoadsOnly(c, d, i)
    && d.servers[i].taken == c.servers[i].taken && |d.servers[i].queue.writes| == |c.servers[i].queue.writes|
    && d.servers[i].queue.hdd == c.servers[i].queue.hdd
  }

  lemma HearMore(c: Chain, i: nat)
    requires Good(c) && c.Middle(i) && Loaded(c, i) && |c.servers[i].heard| < |c.servers[i + 1].sent|
    ensures var d := Next(c, Hear(i)); Good(d) && StatusesOnly(c, d, i) && Statuses(d, i) < Statuses(c, i)
  {
    OwnStep(c, i);
    HeardIsAwaited(c, i);
    var d := Next(c, Hear(i));
    assert c.servers[i].phase == Running && c.servers[i].thread != Ended;
    StaysGood(c, Hear(i), i, d.servers[i]);
  }

  lemma ReplyMore(c: Chain, i: nat)
    requires Good(c) && c.Middle(i) && c.servers[i].queue.Valid() && c.servers[i].queue.Ready()
    ensures var d := Next(c, Reply(i, true)); Good(d) && StatusesOnly(c, d, i) && Statuses(d, i) < Statuses(c, i)
  {
    OwnStep(c, i);
    var d := Next(c, Reply(i, true));
    assert c.servers[i].phase == Running && c.servers[i].thread != Ended;
    StaysGood(c, Reply(i, true), i, d.servers[i]);
  }

  lemma StatusesFit(c: Chain, i: nat)
    requires Good(c) && c.Middle(i)
    ensures Statuses(c, i) >= 0
  {
    OwnStep(c, i);
  }

  /** Server i hears and passes on what is there for it. */
  lemma {:induction false} PassServer(c: Chain, i: nat) returns (more: seq<Step>)
    requires Good(c) && c.Middle(i) && Loaded(c, i)
    ensures var d := Run(c, more); Good(d) && StatusesOnly(c, d, i) && AllPassed(d, i)
    decreases Statuses(c, i)
  {
    more := [];
    OwnStep(c, i);
    if !AllPassed(c, i) {
      var step := StatusStep(c, i);
      if |c.servers[i].heard| < |c.servers[i + 1].sent| {
        HearMore(c, i);
      } else {
        ReplyMore(c, i);
      }
      StatusesFit(Next(c, step), i);
      more := PassServer(Next(c, step), i);
      RunFirst(c, step, more);
      more := [step] + more;
    }
  }

  lemma {:induction false} AnswerFrom(c: Chain, i: nat) returns (more: seq<Step>)
    requires Good(c) && i < |c.servers| && AllLoaded(c, |c.servers|)
    ensures var d := Run(c, more);
            Good(d) && d.client == c.client && |d.servers| == |c.servers| && AllLoaded(d, |d.servers|) && Answered(d, i)
    decreases |c.servers| - i
  {
    assert Loaded(c, i);
    if c.Middle(i) {
      var before := AnswerFrom(c, i + 1);
      var d := Run(c, before);
      assert Loaded(d, i);
      var rest := PassServer(d, i);
      var e := Run(d, rest);
      RunOn(c, before, rest);
      forall j | 0 <= j < |e.servers| ensures Loaded(e, j) {
        assert Loaded(d, j);
      }
      OwnStep(e, i);
      MiddleAnswers(e, i);
      more := before + rest;
    } else {
      more := [];
      LastAnswers(c, i);
    }
  }

  /**
   From every state of a run in which no server has left its loop and no disk write failed, there is
   a way to go on after which the client has an OK for each of its packets, in their order.
   */
  lemma AcknowledgementCanCome(n: nat, steps: seq<Step>) returns (more: seq<Step>)
    requires n > 0 && Healthy(Run(Init(n), steps))
    ensures var c, d := Run(Init(n), steps), Run(Init(n), steps + more);
            d.client == c.client && Healthy(d) && Acknowledged(d)
  {
    var c := Run(Init(n), steps);
    RunKeeps(n, steps);
    RunCalm(n, steps);
    var load := LoadAll(c, n);
    var answer := AnswerFrom(Run(c, load), 0);
    RunOn(c, load, answer);
    more := load + answer;
    RunOn(Init(n), steps, more);
    AcknowledgedInOrder(Run(c, more));
  }

  /** A packet without an id stops a chain: no status comes for it or for any packet behind it. */
  lemma NoIdNoStatus(n: nat, steps: seq<Step>, z: nat)
    requires n > 1 && z < |Run(Init(n), steps).client| && Run(Init(n), steps).client[z].writeid == 0
    ensures |Nonzero(Run(Init(n), steps).servers[0].sent)| <= z
  {
    var c := Run(Init(n), steps);
    RunKeeps(n, steps);
    OwnStep(c, 0);
  }
}
