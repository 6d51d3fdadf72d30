/**
 The worker pool of bgjobs.c as steps of its threads: job_new in two parts, a worker's round in the
 parts between its locks, the status queue with its wake-up pipe, and the removal of finished jobs.
 The queues are kept with all they ever held, and with the number of entries taken out.
 */
module JobPool {
  import opened Options

  const IDS: nat := 0x1_0000_0000

  // ----- Workers -----

  /** What a worker does between taking a job and being available again. */
  datatype Task = Running(job: nat, enabled: bool) | Finished(job: nat, status: nat) | Marked(job: nat, status: nat) | Sent

  datatype Crew = Crew(
    max: nat, maxIdle: nat,                // limits
    avail: nat, total: nat,                // workers_avail and workers_total
    idle: map<nat, Option<nat>>,           // workers without a job, or with one not yet begun
    busy: map<nat, Task>,                  // workers between the two updates of workers_avail
    next: nat,                             // threads ever started
    closed: bool)                          // the job queue
  {
    predicate Waits(w: nat) { w in idle && idle[w] == None }

    predicate Got(w: nat, j: nat) { w in idle && idle[w] == Some(j) }

    function Take(w: nat, j: nat): Crew { this.(idle := idle[w := Some(j)]) }

    /** job_spawn_worker, with a thread that starts. */
    function Spawn(): Crew {
      this.(avail := avail + 1, total := total + 1, idle := idle[next := None], next := next + 1)
    }

    function Start(w: nat, t: Task): Crew
      requires avail > 0
    {
      var c := this.(avail := avail - 1, idle := idle - {w}, busy := busy[w := t]);
      if c.avail == 0 && c.total < c.max then c.Spawn() else c
    }

    function Turn(w: nat, t: Task): Crew { this.(busy := busy[w := t]) }

    /** The worker is available again, or ends when there are too many idle ones. */
    function Return(w: nat): Crew
      requires total > 0
    {
      if avail + 1 > maxIdle then this.(busy := busy - {w}, total := total - 1)
      else this.(busy := busy - {w}, avail := avail + 1, idle := idle[w := None])
    }

    function Exit(w: nat): Crew
      requires avail > 0 && total > 0
    {
      this.(idle := idle - {w}, avail := avail - 1, total := total - 1)
    }

    /** The counters count the workers, and a free worker exists unless the pool is full. */
    ghost predicate Valid() {
      && avail == |idle| && total == |idle| + |busy|
      && (forall w :: w in idle ==> w !in busy && w < next)
      && (forall w :: w in busy ==> w < next)
      && (maxIdle >= 1 && !closed ==> total >= 1 && (avail > 0 || total >= max))
    }
  }

  lemma Put<K, V>(m: map<K, V>, k: K, v: V)
    ensures |m[k := v]| == |m| + if k in m then 0 else 1
  {
    assert m[k := v].Keys == m.Keys + {k};
    if k in m {
      assert m.Keys + {k} == m.Keys;
    }
    assert |m[k := v]| == |m[k := v].Keys| && |m| == |m.Keys|;
  }

  lemma Cut<K, V>(m: map<K, V>, k: K)
    requires k in m
    ensures |m - {k}| == |m| - 1
  {
    assert (m - {k}).Keys == m.Keys - {k};
    assert |m - {k}| == |(m - {k}).Keys| && |m| == |m.Keys|;
  }

  lemma TakeValid(c: Crew, w: nat, j: nat)
    requires c.Valid() && w in c.idle
    ensures c.Take(w, j).Valid()
  {
    Put(c.idle, w, Some(j));
  }

  lemma StartValid(c: Crew, w: nat, t: Task)
    requires c.Valid() && w in c.idle
    ensures c.avail > 0 && c.Start(w, t).Valid()
  {
    Cut(c.idle, w);
    Put(c.busy, w, t);
    Put(c.idle - {w}, c.next, None);
  }

  lemma TurnValid(c: Crew, w: nat, t: Task)
    requires c.Valid() && w in c.busy
    ensures c.Turn(w, t).Valid()
  {
    Put(c.busy, w, t);
  }

  lemma ReturnValid(c: Crew, w: nat)
    requires c.Valid() && w in c.busy
    ensures c.total > 0 && c.Return(w).Valid()
  {
    Cut(c.busy, w);
    Put(c.idle, w, None);
  }

  lemma ExitValid(c: Crew, w: nat)
    requires c.Valid() && w in c.idle && c.closed
    ensures c.avail > 0 && c.total > 0 && c.Exit(w).Valid()
  {
    Cut(c.idle, w);
  }

  // ----- Statuses -----

  datatype Reports = Reports(queue: seq<nat>, received: nat, pipe: nat) {
    /** job_send_status: the first status puts a byte into the pipe. */
    function Send(j: nat): Reports {
      Reports(queue + [j], received, if received == |queue| then pipe + 1 else pipe)
    }

    /** job_receive_status: the last status takes the byte out. */
    function Receive(): Reports
      requires received < |queue|
      requires received + 1 == |queue| ==> pipe > 0
    {
      Reports(queue, received + 1, if received + 1 == |queue| then pipe - 1 else pipe)
    }

    /** The pipe holds one byte exactly when the status queue is not empty. */
    ghost predicate Valid() {
      received <= |queue| && pipe == if received < |queue| then 1 else 0
    }
  }

  lemma ReportsValid(r: Reports, j: nat)
    requires r.Valid()
    ensures r.Send(j).Valid()
    ensures r.received < |r.queue| ==> r.Receive().Valid()
  {
  }

  // ----- Job records -----

  datatype JobState = Enabled | Disabled | InProgress

  /** A job record; serial numbers tell jobs apart when ids are used again. */
  datatype Job = Job(serial: nat, state: JobState)

  datatype Records = Records(
    jobs: map<nat, Job>,                   // the hash by id
    nextjobid: nat,
    jobOf: seq<nat>,                       // for each serial number its id,
    deliveries: seq<nat>,                  // how many statuses it delivered,
    refused: set<nat>,                     // whether it was refused,
    answered: set<nat>,                    // whether it was answered without a worker, for lack of room,
    ran: seq<nat>,                         // how often its operation ran,
    disabled: set<nat>)                    // and whether it was disabled before it was picked up
  {
    function New(): Records {
      this.(jobs := jobs[nextjobid := Job(|jobOf|, Enabled)], jobOf := jobOf + [nextjobid],
            deliveries := deliveries + [0], ran := ran + [0], nextjobid := if nextjobid + 1 == IDS then 1 else nextjobid + 1)
    }

    function Refuse(j: nat): Records
      requires j in jobs
    {
      this.(jobs := jobs - {j}, refused := refused + {jobs[j].serial})
    }

    function Answer(j: nat): Records
      requires j in jobs
    {
      this.(answered := answered + {jobs[j].serial})
    }

    function Deliver(j: nat): Records
      requires j in jobs && jobs[j].serial < |deliveries|
    {
      var n := jobs[j].serial;
      this.(jobs := jobs - {j}, deliveries := deliveries[n := deliveries[n] + 1])
    }

    function Begin(j: nat): Records
      requires j in jobs
    {
      if jobs[j].state == Enabled then this.(jobs := jobs[j := jobs[j].(state := InProgress)]) else this
    }

    function Perform(j: nat): Records
      requires j in jobs
    {
      var n := jobs[j].serial;
      if n < |ran| then this.(ran := ran[n := ran[n] + 1]) else this
    }

    function Disable(j: nat): Records {
      if j in jobs && jobs[j].state == Enabled then
        this.(jobs := jobs[j := jobs[j].(state := Disabled)], disabled := disabled + {jobs[j].serial})
      else this
    }

    predicate Live(n: nat)
      requires n < |jobOf|
    {
      jobOf[n] in jobs && jobs[jobOf[n]].serial == n
    }

    /** Job n is on its way, or delivered its one status, or was refused. */
    ghost predicate Settled(n: nat)
      requires n < |jobOf| == |deliveries|
    {
      deliveries[n] + (if n in refused then 1 else 0) + (if Live(n) then 1 else 0) == 1
    }

    ghost predicate Valid() {
      && |deliveries| == |jobOf| == |ran|
      && 0 < nextjobid < IDS
      && (forall j :: j in jobs ==> 0 < j < IDS && jobs[j].serial < |jobOf| && jobOf[jobs[j].serial] == j)
      && (forall n :: 0 <= n < |jobOf| ==> Settled(n))
      && (forall n :: n in refused ==> n < |jobOf|)
      && (forall n :: n in answered ==> n < |jobOf|)
      && (forall n :: n in disabled ==> n < |jobOf|)
    }

    /** A job that was disabled before a worker began with it does not run. */
    ghost predicate DisabledRest() {
      && (forall n :: n in disabled ==> n < |ran| && ran[n] == 0)
      && (forall j :: j in jobs && jobs[j].state == Enabled ==>
            jobs[j].serial !in disabled && jobs[j].serial < |ran| && ran[jobs[j].serial] == 0)
      && (forall j :: j in jobs && jobs[j].state == InProgress ==> jobs[j].serial !in disabled)
    }
  }

  lemma NewValid(r: Records)
    requires r.Valid() && r.DisabledRest() && r.nextjobid !in r.jobs
    ensures r.New().Valid() && r.New().DisabledRest()
  {
    var t := r.New();
    forall n | 0 <= n < |t.jobOf| ensures t.Settled(n) {
      if n < |r.jobOf| {
        assert r.Settled(n);
        assert t.Live(n) == r.Live(n);
      }
    }
  }

  lemma RefuseValid(r: Records, j: nat)
    requires r.Valid() && r.DisabledRest() && j in r.jobs
    ensures r.Refuse(j).Valid() && r.Refuse(j).DisabledRest()
  {
    var t := r.Refuse(j);
    forall n | 0 <= n < |t.jobOf| ensures t.Settled(n) {
      assert r.Settled(n);
    }
  }

  lemma AnswerValid(r: Records, j: nat)
    requires r.Valid() && r.DisabledRest() && j in r.jobs
    ensures r.Answer(j).Valid() && r.Answer(j).DisabledRest()
  {
    var t := r.Answer(j);
    forall n | 0 <= n < |t.jobOf| ensures t.Settled(n) {
      assert r.Settled(n);
    }
  }

  lemma DeliverValid(r: Records, j: nat)
    requires r.Valid() && r.DisabledRest() && j in r.jobs
    ensures r.Deliver(j).Valid() && r.Deliver(j).DisabledRest()
    ensures r.deliveries[r.jobs[j].serial] == 0 && r.Deliver(j).deliveries[r.jobs[j].serial] == 1
  {
    var t := r.Deliver(j);
    assert r.Settled(r.jobs[j].serial);
    forall n | 0 <= n < |t.jobOf| ensures t.Settled(n) {
      assert r.Settled(n);
    }
  }

  lemma BeginValid(r: Records, j: nat)
    requires r.Valid() && r.DisabledRest() && j in r.jobs
    ensures r.Begin(j).Valid() && r.Begin(j).DisabledRest()
  {
    var t := r.Begin(j);
    forall n | 0 <= n < |t.jobOf| ensures t.Settled(n) {
      assert r.Settled(n);
    }
  }

  lemma PerformValid(r: Records, j: nat)
    requires r.Valid() && r.DisabledRest() && j in r.jobs && r.jobs[j].state == InProgress
    ensures r.Perform(j).Valid() && r.Perform(j).DisabledRest()
  {
    var t := r.Perform(j);
    forall n | 0 <= n < |t.jobOf| ensures t.Settled(n) {
      assert r.Settled(n);
    }
    forall i | i in t.jobs && t.jobs[i].state == Enabled ensures t.ran[t.jobs[i].serial] == 0 {
      assert t.jobs[i].serial != t.jobs[j].serial;
    }
  }

  lemma DisableValid(r: Records, j: nat)
    requires r.Valid() && r.DisabledRest()
    ensures r.Disable(j).Valid() && r.Disable(j).DisabledRest()
  {
    var t := r.Disable(j);
    forall n | 0 <= n < |t.jobOf| ensures t.Settled(n) {
      assert r.Settled(n);
    }
    forall i | i in t.jobs && t.jobs[i].state != Disabled ensures t.jobs[i].serial !in t.disabled {
    }
  }

  // ----- The pool -----

  /** Where the one reference to a job is that will lead to its removal. */
  datatype Place = Adding(j: nat) | InQueue(i: nat) | WithWorker(w: nat) | InStatus(i: nat)

  /** JOB_MODE_*: always queued, or when there are too many refused, or answered with an error. */
  datatype Mode = Always | Return | Queue

  datatype Pool = Pool(
    crew: Crew,
    reports: Reports,
    records: Records,
    adding: map<nat, nat>,                 // ids being added, and the workers that were busy then
    queued: seq<nat>, taken: nat,          // the job queue
    place: map<nat, Place>)
  {
    /** The job that is referred to from a place. */
    function Ref(p: Place): Option<nat> {
      match p
      case Adding(j) => if j in adding then Some(j) else None
      case InQueue(i) => if taken <= i < |queued| then Some(queued[i]) else None
      case WithWorker(w) =>
        if w in crew.idle then crew.idle[w]
        else if w in crew.busy && crew.busy[w] != Sent then Some(crew.busy[w].job)
        else None
      case InStatus(i) => if reports.received <= i < |reports.queue| then Some(reports.queue[i]) else None
    }

    /** Every record is referred to from exactly one place, and every reference is to a record. */
    ghost predicate Placed() {
      && place.Keys == records.jobs.Keys
      && (forall j :: j in place ==> Ref(place[j]) == Some(j))
      && (forall p :: Ref(p).Some? ==> Ref(p).value in place && place[Ref(p).value] == p)
    }

    /** A worker runs the operation of a job exactly when it found it enabled. */
    ghost predicate Tasked(j: nat)
      requires j in place
    {
      && j in records.jobs
      && var begun := records.jobs[j].state == InProgress;
         match place[j]
         case WithWorker(w) => if w in crew.busy then crew.busy[w].Running? ==> crew.busy[w].enabled == begun else !begun
         case InStatus(_) => true
         case _ => !begun
    }

    ghost predicate AllTasked() {
      forall j :: j in place ==> Tasked(j)
    }

    ghost predicate Valid() {
      && crew.Valid() && reports.Valid() && records.Valid() && records.DisabledRest()
      && taken <= |queued| && Placed() && AllTasked()
    }
  }

  function Start(max: nat, maxIdle: nat): Pool {
    Pool(Crew(max, maxIdle, 1, 1, map[0 := None], map[], 1, false), Reports([], 0, 0),
         Records(map[], 1, [], [], {}, {}, [], {}), map[], [], 0, map[])
  }

  lemma StartValidPool(max: nat, maxIdle: nat)
    ensures Start(max, maxIdle).Valid()
  {
    var s := Start(max, maxIdle);
    assert |s.crew.idle| == 1;
    assert s.crew.Valid();
  }

  // ----- Steps -----

  function AddJob(s: Pool): Pool {
    var j := s.records.nextjobid;
    s.(records := s.records.New(), place := s.place[j := Adding(j)],
       adding := s.adding[j := if s.crew.total >= s.crew.avail then s.crew.total - s.crew.avail else 0])
  }

  function QueueStatus(s: Pool, j: nat): Pool {
    s.(reports := s.reports.Send(j), place := s.place[j := InStatus(|s.reports.queue|)])
  }

  predicate TooMany(s: Pool, busyThen: nat) {
    s.taken <= |s.queued| && |s.queued| - s.taken + busyThen > s.crew.max
  }

  function PlaceJob(s: Pool, j: nat, mode: Mode): Pool
    requires j in s.adding && j in s.records.jobs
  {
    var t := s.(adding := s.adding - {j});
    if TooMany(s, s.adding[j]) && mode == Return then t.(records := s.records.Refuse(j), place := s.place - {j})
    else if TooMany(s, s.adding[j]) && mode == Queue then QueueStatus(t.(records := s.records.Answer(j)), j)
    else t.(queued := s.queued + [j], place := s.place[j := InQueue(|s.queued|)])
  }

  function PickJob(s: Pool, w: nat): Pool
    requires s.taken < |s.queued|
  {
    var j := s.queued[s.taken];
    s.(crew := s.crew.Take(w, j), taken := s.taken + 1, place := s.place[j := WithWorker(w)])
  }

  function BeginJob(s: Pool, w: nat, j: nat): Pool
    requires j in s.records.jobs && s.crew.avail > 0
  {
    s.(crew := s.crew.Start(w, Running(j, s.records.jobs[j].state == Enabled)), records := s.records.Begin(j))
  }

  /** The operation runs unless the job was found disabled. */
  function PerformJob(s: Pool, w: nat, t: Task, status: nat): Pool
    requires t.Running? && t.job in s.records.jobs
  {
    s.(crew := s.crew.Turn(w, Finished(t.job, status)),
       records := if t.enabled then s.records.Perform(t.job) else s.records)
  }

  /** One round of job_pool_check_jobs_in_pool. */
  function ReceiveStatus(s: Pool): Pool
    requires s.reports.received < |s.reports.queue|
    requires s.reports.received + 1 == |s.reports.queue| ==> s.reports.pipe > 0
  {
    var j := s.reports.queue[s.reports.received];
    var t := s.(reports := s.reports.Receive());
    if j in s.records.jobs && s.records.jobs[j].serial < |s.records.deliveries| then
      t.(records := s.records.Deliver(j), place := s.place - {j})
    else t
  }

  datatype Step =
    | New                              // job_new: a record is made
    | Add(j: nat, mode: Mode)          // and refused, answered or queued
    | Pick(w: nat)                     // a worker takes a job out of the queue
    | Begin(w: nat)                    // and is no longer available
    | Do(w: nat, status: nat)          // the operation
    | Mark(w: nat)                     // the record is marked as finished
    | Report(w: nat)                   // the status goes into the queue
    | Back(w: nat)                     // the worker is available again, or ends
    | CloseQueue
    | Exit(w: nat)                     // a worker ends because the queue was closed
    | Disable(j: nat)
    | Receive

  /** Whether a step is possible. */
  predicate Can(s: Pool, step: Step) {
    var c := s.crew;
    match step
    case New => s.records.nextjobid !in s.records.jobs
    case Add(j, mode) => j in s.adding && j in s.records.jobs
    case Pick(w) => !c.closed && c.Waits(w) && s.taken < |s.queued|
    case Begin(w) => w in c.idle && c.idle[w].Some? && c.idle[w].value in s.records.jobs && c.avail > 0
    case Do(w, status) => w in c.busy && c.busy[w].Running? && c.busy[w].job in s.records.jobs
    case Mark(w) => w in c.busy && c.busy[w].Finished?
    case Report(w) => w in c.busy && c.busy[w].Marked?
    case Back(w) => w in c.busy && c.busy[w] == Sent && c.total > 0
    case CloseQueue => true
    case Exit(w) => c.closed && c.Waits(w) && c.avail > 0 && c.total > 0
    case Disable(j) => true
    case Receive =>
      && s.reports.received < |s.reports.queue|
      && (s.reports.received + 1 == |s.reports.queue| ==> s.reports.pipe > 0)
  }

  function Next(s: Pool, step: Step): Pool {
    if !Can(s, step) then s
    else
      match step
      case New => AddJob(s)
      case Add(j, mode) => PlaceJob(s, j, mode)
      case Pick(w) => PickJob(s, w)
      case Begin(w) => BeginJob(s, w, s.crew.idle[w].value)
      case Do(w, status) => PerformJob(s, w, s.crew.busy[w], status)
      case Mark(w) => s.(crew := s.crew.Turn(w, Marked(s.crew.busy[w].job, s.crew.busy[w].status)))
      case Report(w) => QueueStatus(s, s.crew.busy[w].job).(crew := s.crew.Turn(w, Sent))
      case Back(w) => s.(crew := s.crew.Return(w))
      case CloseQueue => s.(crew := s.crew.(closed := true))
      case Exit(w) => s.(crew := s.crew.Exit(w))
      case Disable(j) => s.(records := s.records.Disable(j))
      case Receive => ReceiveStatus(s)
  }

  function Run(s: Pool, steps: seq<Step>): Pool {
    if |steps| == 0 then s else Next(Run(s, steps[..|steps| - 1]), steps[|steps| - 1])
  }

  // ----- Places -----

  /** A job goes from one place to another. */
  lemma Moves(s: Pool, t: Pool, j: nat, p: Place, q: Place)
    requires s.Placed() && j in s.place && s.place[j] == p && p != q
    requires t.place == s.place[j := q] && t.records.jobs.Keys == s.records.jobs.Keys
    requires t.Ref(q) == Some(j) && t.Ref(p) == None && s.Ref(q) == None
    requires forall r :: r != p && r != q ==> t.Ref(r) == s.Ref(r)
    ensures t.Placed()
  {
    forall i | i in t.place && i != j ensures t.Ref(t.place[i]) == Some(i) {
      assert s.Ref(s.place[i]) == Some(i);
    }
    forall r | t.Ref(r).Some? && r != q ensures t.Ref(r).value in t.place && t.place[t.Ref(r).value] == r {
      assert s.place[s.Ref(r).value] == r;
    }
  }

  lemma Appears(s: Pool, t: Pool, j: nat, q: Place)
    requires s.Placed() && j !in s.place
    requires t.place == s.place[j := q] && t.records.jobs.Keys == s.records.jobs.Keys + {j}
    requires t.Ref(q) == Some(j) && s.Ref(q) == None
    requires forall r :: r != q ==> t.Ref(r) == s.Ref(r)
    ensures t.Placed()
  {
  }

  lemma Vanishes(s: Pool, t: Pool, j: nat, p: Place)
    requires s.Placed() && j in s.place && s.place[j] == p
    requires t.place == s.place - {j} && t.records.jobs.Keys == s.records.jobs.Keys - {j}
    requires t.Ref(p) == None
    requires forall r :: r != p ==> t.Ref(r) == s.Ref(r)
    ensures t.Placed()
  {
  }

  lemma Stays(s: Pool, t: Pool)
    requires s.Placed() && t.place == s.place && t.records.jobs.Keys == s.records.jobs.Keys
    requires forall r :: t.Ref(r) == s.Ref(r)
    ensures t.Placed()
  {
  }

  // ----- Every step keeps the invariant: places -----

  lemma AddPlaced(s: Pool)
    requires s.Placed() && Can(s, New)
    ensures AddJob(s).Placed()
  {
    var j := s.records.nextjobid;
    assert s.Ref(Adding(j)) == None;
    Appears(s, AddJob(s), j, Adding(j));
  }

  lemma PlacePlaced(s: Pool, j: nat, mode: Mode)
    requires s.Placed() && Can(s, Add(j, mode)) && s.reports.Valid() && s.taken <= |s.queued|
    ensures PlaceJob(s, j, mode).Placed()
  {
    var t := PlaceJob(s, j, mode);
    assert s.Ref(Adding(j)) == Some(j);
    if TooMany(s, s.adding[j]) && mode == Return {
      Vanishes(s, t, j, Adding(j));
    } else if TooMany(s, s.adding[j]) && mode == Queue {
      Moves(s, t, j, Adding(j), InStatus(|s.reports.queue|));
    } else {
      Moves(s, t, j, Adding(j), InQueue(|s.queued|));
    }
  }

  lemma PickPlaced(s: Pool, w: nat)
    requires s.Placed() && Can(s, Pick(w))
    ensures PickJob(s, w).Placed()
  {
    var j := s.queued[s.taken];
    assert s.Ref(InQueue(s.taken)) == Some(j);
    Moves(s, PickJob(s, w), j, InQueue(s.taken), WithWorker(w));
  }

  lemma BeginRef(s: Pool, w: nat, j: nat, p: Place)
    requires s.crew.Got(w, j) && j in s.records.jobs && s.crew.avail > 0
    requires s.crew.next !in s.crew.idle && s.crew.next !in s.crew.busy
    ensures BeginJob(s, w, j).Ref(p) == s.Ref(p)
  {
  }

  lemma BeginPlaced(s: Pool, w: nat, j: nat)
    requires s.Placed() && s.crew.Got(w, j) && j in s.records.jobs && s.crew.avail > 0
    requires s.crew.next !in s.crew.idle && s.crew.next !in s.crew.busy
    ensures BeginJob(s, w, j).Placed()
  {
    var t := BeginJob(s, w, j);
    forall p ensures t.Ref(p) == s.Ref(p) {
      BeginRef(s, w, j, p);
    }
    Stays(s, t);
  }

  lemma TurnPlaced(s: Pool, w: nat, t: Task)
    requires s.Placed() && w in s.crew.busy && w !in s.crew.idle
    requires s.crew.busy[w] != Sent && t != Sent && t.job == s.crew.busy[w].job
    ensures s.(crew := s.crew.Turn(w, t)).Placed()
  {
    Stays(s, s.(crew := s.crew.Turn(w, t)));
  }

  lemma ReportPlaced(s: Pool, w: nat)
    requires s.Placed() && Can(s, Report(w)) && w !in s.crew.idle && s.reports.Valid()
    ensures Next(s, Report(w)).Placed()
  {
    var j := s.crew.busy[w].job;
    assert s.Ref(WithWorker(w)) == Some(j);
    Moves(s, Next(s, Report(w)), j, WithWorker(w), InStatus(|s.reports.queue|));
  }

  lemma BackPlaced(s: Pool, w: nat)
    requires s.Placed() && Can(s, Back(w)) && w !in s.crew.idle
    ensures Next(s, Back(w)).Placed()
  {
    assert s.Ref(WithWorker(w)) == None;
    Stays(s, Next(s, Back(w)));
  }

  lemma ExitPlaced(s: Pool, w: nat)
    requires s.Placed() && Can(s, Exit(w)) && w !in s.crew.busy
    ensures Next(s, Exit(w)).Placed()
  {
    assert s.Ref(WithWorker(w)) == None;
    Stays(s, Next(s, Exit(w)));
  }

  lemma ClosePlaced(s: Pool)
    requires s.Placed()
    ensures s.(crew := s.crew.(closed := true)).Placed()
  {
    Stays(s, s.(crew := s.crew.(closed := true)));
  }

  /** Only the records change, and none appears or goes. */
  lemma RecordsPlaced(s: Pool, r: Records)
    requires s.Placed() && r.jobs.Keys == s.records.jobs.Keys
    ensures s.(records := r).Placed()
  {
    Stays(s, s.(records := r));
  }

  lemma ReceivePlaced(s: Pool)
    requires s.Placed() && s.records.Valid() && Can(s, Receive)
    ensures ReceiveStatus(s).Placed()
    ensures s.reports.queue[s.reports.received] in s.records.jobs
  {
    var j := s.reports.queue[s.reports.received];
    assert s.Ref(InStatus(s.reports.received)) == Some(j);
    assert s.place[j] == InStatus(s.reports.received);
    Vanishes(s, ReceiveStatus(s), j, InStatus(s.reports.received));
  }

  // ----- Every step keeps the invariant: tasks -----

  /** A job that a step does not touch. */
  lemma SameTask(s: Pool, t: Pool, j: nat)
    requires j in s.place && s.Tasked(j) && j in t.place && t.place[j] == s.place[j]
    requires j in s.records.jobs && j in t.records.jobs && t.records.jobs[j] == s.records.jobs[j]
    requires s.place[j].WithWorker? ==>
               var w := s.place[j].w;
               (w in t.crew.busy <==> w in s.crew.busy) && (w in s.crew.busy ==> t.crew.busy[w] == s.crew.busy[w])
    ensures t.Tasked(j)
  {
  }

  /** Another job is with another worker. */
  lemma OtherWorker(s: Pool, i: nat, w: nat)
    requires s.Placed() && i in s.place && s.Ref(WithWorker(w)) != Some(i)
    ensures s.place[i] != WithWorker(w)
  {
  }

  lemma AddTasked(s: Pool)
    requires s.Placed() && s.AllTasked() && Can(s, New)
    ensures AddJob(s).AllTasked()
  {
    forall i | i in AddJob(s).place && i != s.records.nextjobid ensures AddJob(s).Tasked(i) {
      SameTask(s, AddJob(s), i);
    }
  }

  lemma PlaceTasked(s: Pool, j: nat, mode: Mode)
    requires s.Placed() && s.AllTasked() && Can(s, Add(j, mode))
    ensures PlaceJob(s, j, mode).AllTasked()
  {
    var t := PlaceJob(s, j, mode);
    assert s.Ref(Adding(j)) == Some(j);
    assert s.Tasked(j);
    forall i | i in t.place && i != j ensures t.Tasked(i) {
      SameTask(s, t, i);
    }
  }

  lemma PickTasked(s: Pool, w: nat)
    requires s.Placed() && s.AllTasked() && Can(s, Pick(w)) && w !in s.crew.busy
    ensures PickJob(s, w).AllTasked()
  {
    var t, j := PickJob(s, w), s.queued[s.taken];
    assert s.Ref(InQueue(s.taken)) == Some(j);
    assert s.Tasked(j);
    forall i | i in t.place && i != j ensures t.Tasked(i) {
      SameTask(s, t, i);
    }
  }

  lemma BeginTasked(s: Pool, w: nat, j: nat)
    requires s.Placed() && s.AllTasked() && s.crew.Got(w, j) && j in s.records.jobs && s.crew.avail > 0 && w !in s.crew.busy
    ensures BeginJob(s, w, j).AllTasked()
  {
    var t := BeginJob(s, w, j);
    assert s.Ref(WithWorker(w)) == Some(j);
    assert s.Tasked(j);
    forall i | i in t.place && i != j ensures t.Tasked(i) {
      OtherWorker(s, i, w);
      SameTask(s, t, i);
    }
  }

  /** A worker goes on with its job, no longer running it. */
  lemma TurnTasked(s: Pool, w: nat, t: Task)
    requires s.AllTasked() && w in s.crew.busy && !t.Running?
    ensures s.(crew := s.crew.Turn(w, t)).AllTasked()
  {
    var u := s.(crew := s.crew.Turn(w, t));
    forall i | i in u.place ensures u.Tasked(i) {
      assert s.Tasked(i);
    }
  }

  lemma ReportTasked(s: Pool, w: nat)
    requires s.Placed() && s.AllTasked() && Can(s, Report(w)) && w !in s.crew.idle
    ensures Next(s, Report(w)).AllTasked()
  {
    var t, j := Next(s, Report(w)), s.crew.busy[w].job;
    assert s.Ref(WithWorker(w)) == Some(j);
    assert s.Tasked(j);
    forall i | i in t.place && i != j ensures t.Tasked(i) {
      OtherWorker(s, i, w);
      SameTask(s, t, i);
    }
  }

  lemma BackTasked(s: Pool, w: nat)
    requires s.Placed() && s.AllTasked() && Can(s, Back(w)) && w !in s.crew.idle
    ensures Next(s, Back(w)).AllTasked()
  {
    var t := Next(s, Back(w));
    forall i | i in t.place ensures t.Tasked(i) {
      OtherWorker(s, i, w);
      SameTask(s, t, i);
    }
  }

  lemma IdleTasked(s: Pool, c: Crew)
    requires s.AllTasked() && c.busy == s.crew.busy
    ensures s.(crew := c).AllTasked()
  {
    var t := s.(crew := c);
    forall i | i in t.place ensures t.Tasked(i) {
      SameTask(s, t, i);
    }
  }

  lemma DisableTasked(s: Pool, j: nat)
    requires s.AllTasked() && s.Placed()
    ensures s.(records := s.records.Disable(j)).AllTasked()
  {
    var t := s.(records := s.records.Disable(j));
    forall i | i in t.place ensures t.Tasked(i) {
      assert s.Tasked(i);
    }
  }

  lemma PerformTasked(s: Pool, w: nat, task: Task, status: nat)
    requires s.AllTasked() && w in s.crew.busy && task.Running? && task.job in s.records.jobs
    ensures PerformJob(s, w, task, status).AllTasked()
  {
    var t := PerformJob(s, w, task, status);
    forall i | i in t.place ensures t.Tasked(i) {
      assert s.Tasked(i);
    }
  }

  lemma ReceiveTasked(s: Pool)
    requires s.Placed() && s.AllTasked() && Can(s, Receive)
    ensures ReceiveStatus(s).AllTasked()
  {
    var t := ReceiveStatus(s);
    forall i | i in t.place ensures t.Tasked(i) {
      assert s.Tasked(i);
    }
  }

  // ----- Every step keeps the invariant -----

  lemma AddKeeps(s: Pool)
    requires s.Valid() && Can(s, New)
    ensures AddJob(s).Valid()
  {
    NewValid(s.records);
    AddPlaced(s);
    AddTasked(s);
  }

  lemma PlaceKeeps(s: Pool, j: nat, mode: Mode)
    requires s.Valid() && Can(s, Add(j, mode))
    ensures PlaceJob(s, j, mode).Valid()
  {
    RefuseValid(s.records, j);
    AnswerValid(s.records, j);
    ReportsValid(s.reports, j);
    PlacePlaced(s, j, mode);
    PlaceTasked(s, j, mode);
  }

  lemma PickKeeps(s: Pool, w: nat)
    requires s.Valid() && Can(s, Pick(w))
    ensures PickJob(s, w).Valid()
  {
    TakeValid(s.crew, w, s.queued[s.taken]);
    PickPlaced(s, w);
    PickTasked(s, w);
  }

  lemma BeginKeeps(s: Pool, w: nat)
    requires s.Valid() && Can(s, Begin(w))
    ensures BeginJob(s, w, s.crew.idle[w].value).Valid()
  {
    var j := s.crew.idle[w].value;
    StartValid(s.crew, w, Running(j, s.records.jobs[j].state == Enabled));
    BeginValid(s.records, j);
    BeginPlaced(s, w, j);
    BeginTasked(s, w, j);
  }

  lemma PerformKeeps(s: Pool, w: nat, status: nat)
    requires s.Valid() && Can(s, Do(w, status))
    ensures PerformJob(s, w, s.crew.busy[w], status).Valid()
  {
    var task := s.crew.busy[w];
    TurnValid(s.crew, w, Finished(task.job, status));
    assert s.Ref(WithWorker(w)) == Some(task.job);
    assert s.Tasked(task.job);
    if task.enabled {
      PerformValid(s.records, task.job);
    }
    TurnPlaced(s, w, Finished(task.job, status));
    RecordsPlaced(s.(crew := s.crew.Turn(w, Finished(task.job, status))), PerformJob(s, w, task, status).records);
    PerformTasked(s, w, task, status);
  }

  lemma MarkKeeps(s: Pool, w: nat)
    requires s.Valid() && Can(s, Mark(w))
    ensures Next(s, Mark(w)).Valid()
  {
    var t := Marked(s.crew.busy[w].job, s.crew.busy[w].status);
    TurnValid(s.crew, w, t);
    TurnPlaced(s, w, t);
    TurnTasked(s, w, t);
  }

  lemma ReportKeeps(s: Pool, w: nat)
    requires s.Valid() && Can(s, Report(w))
    ensures Next(s, Report(w)).Valid()
  {
    TurnValid(s.crew, w, Sent);
    ReportsValid(s.reports, s.crew.busy[w].job);
    ReportPlaced(s, w);
    ReportTasked(s, w);
  }

  lemma BackKeeps(s: Pool, w: nat)
    requires s.Valid() && Can(s, Back(w))
    ensures Next(s, Back(w)).Valid()
  {
    ReturnValid(s.crew, w);
    BackPlaced(s, w);
    BackTasked(s, w);
  }

  lemma ExitKeeps(s: Pool, w: nat)
    requires s.Valid() && Can(s, Exit(w))
    ensures Next(s, Exit(w)).Valid()
  {
    ExitValid(s.crew, w);
    ExitPlaced(s, w);
    IdleTasked(s, s.crew.Exit(w));
  }

  lemma DisableKeeps(s: Pool, j: nat)
    requires s.Valid()
    ensures Next(s, Disable(j)).Valid()
  {
    DisableValid(s.records, j);
    RecordsPlaced(s, s.records.Disable(j));
    DisableTasked(s, j);
  }

  lemma ReceiveKeeps(s: Pool)
    requires s.Valid() && Can(s, Receive)
    ensures ReceiveStatus(s).Valid()
    ensures s.reports.queue[s.reports.received] in s.records.jobs
  {
    var j := s.reports.queue[s.reports.received];
    ReceivePlaced(s);
    ReportsValid(s.reports, j);
    DeliverValid(s.records, j);
    ReceiveTasked(s);
  }

  lemma CloseKeeps(s: Pool)
    requires s.Valid()
    ensures Next(s, CloseQueue).Valid()
  {
    ClosePlaced(s);
    IdleTasked(s, s.crew.(closed := true));
  }

  lemma StepKeeps(s: Pool, step: Step)
    requires s.Valid()
    ensures Next(s, step).Valid()
  {
    if Can(s, step) {
      match step
      case New => AddKeeps(s);
      case Add(j, mode) => PlaceKeeps(s, j, mode);
      case Pick(w) => PickKeeps(s, w);
      case Begin(w) => BeginKeeps(s, w);
      case Do(w, status) => PerformKeeps(s, w, status);
      case Mark(w) => MarkKeeps(s, w);
      case Report(w) => ReportKeeps(s, w);
      case Back(w) => BackKeeps(s, w);
      case CloseQueue => CloseKeeps(s);
      case Exit(w) => ExitKeeps(s, w);
      case Disable(j) => DisableKeeps(s, j);
      case Receive => ReceiveKeeps(s);
    }
  }

  lemma {:induction false} RunKeeps(max: nat, maxIdle: nat, steps: seq<Step>)
    ensures Run(Start(max, maxIdle), steps).Valid()
  {
    if |steps| == 0 {
      StartValidPool(max, maxIdle);
    } else {
      RunKeeps(max, maxIdle, steps[..|steps| - 1]);
      StepKeeps(Run(Start(max, maxIdle), steps[..|steps| - 1]), steps[|steps| - 1]);
    }
  }

  // ----- Results, for every run -----

  /**
   A job delivers at most one status. It has delivered it, or was refused, or its record is still
   there; and then there is exactly one reference through which it will be removed.
   */
  lemma OneStatusEach(max: nat, maxIdle: nat, steps: seq<Step>, n: nat)
    requires n < |Run(Start(max, maxIdle), steps).records.jobOf|
    ensures var s := Run(Start(max, maxIdle), steps);
            && |s.records.deliveries| == |s.records.jobOf| && s.records.deliveries[n] <= 1
            && (s.records.deliveries[n] == 1 <==> !s.records.Live(n) && n !in s.records.refused)
            && (s.records.Live(n) ==>
                  var j := s.records.jobOf[n]; j in s.place && forall p :: s.Ref(p) == Some(j) <==> p == s.place[j])
  {
    RunKeeps(max, maxIdle, steps);
    var s := Run(Start(max, maxIdle), steps);
    assert s.records.Settled(n);
  }

  /** A record is not removed while a worker has the job. */
  lemma WorkerHasItsRecord(max: nat, maxIdle: nat, steps: seq<Step>, w: nat, j: nat)
    requires var s := Run(Start(max, maxIdle), steps);
             s.crew.Got(w, j) || (w in s.crew.busy && s.crew.busy[w] != Sent && s.crew.busy[w].job == j)
    ensures var s := Run(Start(max, maxIdle), steps); j in s.records.jobs && j in s.place && s.place[j] == WithWorker(w)
  {
    RunKeeps(max, maxIdle, steps);
    var s := Run(Start(max, maxIdle), steps);
    assert s.Ref(WithWorker(w)) == Some(j);
  }

  /** The pipe holds one byte exactly when the status queue is not empty, and every status has its record. */
  lemma OneByteInPipe(max: nat, maxIdle: nat, steps: seq<Step>)
    ensures var s := Run(Start(max, maxIdle), steps);
            && s.reports.pipe <= 1
            && (s.reports.pipe == 1 <==> s.reports.received < |s.reports.queue|)
            && (s.reports.received < |s.reports.queue| ==> Can(s, Receive) && s.reports.queue[s.reports.received] in s.records.jobs)
  {
    RunKeeps(max, maxIdle, steps);
    var s := Run(Start(max, maxIdle), steps);
    if Can(s, Receive) {
      ReceiveKeeps(s);
    }
  }

  /** The counters are exact; before the queue is closed there is a free worker or no room for one. */
  lemma WorkersCounted(max: nat, maxIdle: nat, steps: seq<Step>)
    requires maxIdle >= 1
    ensures var c := Run(Start(max, maxIdle), steps).crew;
            && c.avail <= c.total && c.total - c.avail == |c.busy| && c.avail == |c.idle|
            && (!c.closed ==> c.total >= 1 && (c.avail > 0 || c.total >= c.max))
  {
    RunKeeps(max, maxIdle, steps);
    LimitsStay(max, maxIdle, steps);
  }

  lemma {:induction false} LimitsStay(max: nat, maxIdle: nat, steps: seq<Step>)
    ensures var c := Run(Start(max, maxIdle), steps).crew; c.max == max && c.maxIdle == maxIdle
  {
    if |steps| > 0 {
      LimitsStay(max, maxIdle, steps[..|steps| - 1]);
      SameLimits(Run(Start(max, maxIdle), steps[..|steps| - 1]), steps[|steps| - 1]);
    }
  }

  lemma SameLimits(s: Pool, step: Step)
    ensures Next(s, step).crew.max == s.crew.max && Next(s, step).crew.maxIdle == s.crew.maxIdle
  {
  }

  // ----- Progress -----

  lemma {:induction false} RunOn(s: Pool, a: seq<Step>, b: seq<Step>)
    ensures Run(s, a + b) == Run(Run(s, a), b)
  {
    if |b| == 0 {
      assert a + b == a;
    } else {
      var front := b[..|b| - 1];
      RunOn(s, a, front);
      assert (a + b)[..|a + b| - 1] == a + front;
    }
  }

  lemma RunFirst(s: Pool, step: Step, rest: seq<Step>)
    ensures Run(s, [step] + rest) == Run(Next(s, step), rest)
  {
    RunOn(s, [step], rest);
    assert [step][..0] == [];
  }

  /** A pool that still takes jobs, with job n on its way. */
  predicate OnItsWay(s: Pool, n: nat) {
    s.crew.maxIdle >= 1 && !s.crew.closed && n < |s.records.jobOf| && s.records.Live(n)
  }

  ghost predicate Awaiting(s: Pool, n: nat) {
    s.Valid() && OnItsWay(s, n)
  }

  /** The place of job n. */
  function PlaceOf(s: Pool, n: nat): Option<Place> {
    if n < |s.records.jobOf| && s.records.jobOf[n] in s.place then Some(s.place[s.records.jobOf[n]]) else None
  }

  lemma HasPlace(s: Pool, n: nat)
    requires Awaiting(s, n)
    ensures var j := s.records.jobOf[n];
            PlaceOf(s, n).Some? && s.Ref(PlaceOf(s, n).value) == Some(j) && s.records.jobs[j].serial == n
  {
  }

  ghost predicate Delivered(s: Pool, n: nat) {
    n < |s.records.deliveries| && s.records.deliveries[n] == 1
  }

  /** One status is received: that of job n, or one before it. */
  lemma ReceiveOne(s: Pool, n: nat)
    requires Awaiting(s, n) && PlaceOf(s, n).value.InStatus?
    ensures PlaceOf(s, n).Some?
    ensures var t, i := Next(s, Receive), PlaceOf(s, n).value.i;
            if i == s.reports.received then Delivered(t, n)
            else Awaiting(t, n) && PlaceOf(t, n) == PlaceOf(s, n) && s.reports.received + 1 == t.reports.received <= i
  {
    HasPlace(s, n);
    var j := s.records.jobOf[n];
    var first := s.reports.queue[s.reports.received];
    assert Can(s, Receive);
    ReceiveKeeps(s);
    DeliverValid(s.records, first);
    assert s.Ref(InStatus(s.reports.received)) == Some(first);
    if first == j {
      assert s.place[j] == InStatus(s.reports.received);
    }
  }

  /** A job whose status is in the queue. */
  lemma {:induction false} FromStatus(s: Pool, n: nat) returns (more: seq<Step>)
    requires Awaiting(s, n) && PlaceOf(s, n).Some? && PlaceOf(s, n).value.InStatus?
    ensures Delivered(Run(s, more), n)
    decreases PlaceOf(s, n).value.i - s.reports.received
  {
    HasPlace(s, n);
    ReceiveOne(s, n);
    more := [];
    if PlaceOf(s, n).value.i != s.reports.received {
      more := FromStatus(Next(s, Receive), n);
    }
    RunFirst(s, Receive, more);
    more := [Receive] + more;
  }

  /** How far a worker is from waiting for the next job. */
  function Stage(c: Crew, w: nat): nat {
    if w in c.idle then if c.idle[w].Some? then 5 else 0
    else if w in c.busy then
      match c.busy[w]
      case Running(_, _) => 4
      case Finished(_, _) => 3
      case Marked(_, _) => 2
      case Sent => 1
    else 0
  }

  /** What a worker with a job does next. */
  function NextOf(c: Crew, w: nat): Step {
    match Stage(c, w)
    case 5 => Begin(w)
    case 4 => Do(w, 0)
    case 3 => Mark(w)
    case 2 => Report(w)
    case _ => Back(w)
  }

  lemma RefHasRecord(s: Pool, p: Place)
    requires s.Placed() && s.Ref(p).Some?
    ensures s.Ref(p).value in s.records.jobs
  {
  }

  lemma CrewCan(c: Crew, w: nat)
    requires c.Valid() && Stage(c, w) > 0
    ensures c.total > 0 && (w in c.idle ==> c.avail > 0)
  {
    if w in c.idle {
      StartValid(c, w, Sent);
    } else {
      ReturnValid(c, w);
    }
  }

  lemma WorkerCan(s: Pool, w: nat)
    requires s.crew.Valid() && s.Placed() && Stage(s.crew, w) > 0
    ensures Can(s, NextOf(s.crew, w))
  {
    CrewCan(s.crew, w);
    if s.Ref(WithWorker(w)).Some? {
      RefHasRecord(s, WithWorker(w));
    }
  }

  /** A worker has job n exactly when the place of the job says so. */
  lemma HasJob(s: Pool, w: nat, n: nat)
    requires Awaiting(s, n) && Stage(s.crew, w) == 2
    ensures PlaceOf(s, n) == Some(WithWorker(w)) <==> s.crew.busy[w].job == s.records.jobOf[n]
  {
    assert s.Ref(WithWorker(w)) == Some(s.crew.busy[w].job);
  }

  /** What becomes of job n when a worker goes on: it stays where it is unless its own status is sent. */
  ghost predicate Follows(s: Pool, w: nat, t: Pool, n: nat) {
    && OnItsWay(t, n) && t.taken == s.taken && t.queued == s.queued
    && (if Stage(s.crew, w) == 2 && PlaceOf(s, n) == Some(WithWorker(w)) then
          PlaceOf(t, n).Some? && PlaceOf(t, n).value.InStatus?
        else PlaceOf(t, n) == PlaceOf(s, n))
  }

  lemma WorkerMoves(s: Pool, w: nat, n: nat)
    requires OnItsWay(s, n) && PlaceOf(s, n).Some? && Stage(s.crew, w) > 0
    requires Stage(s.crew, w) == 2 ==>
               (PlaceOf(s, n) == Some(WithWorker(w)) <==> s.crew.busy[w].job == s.records.jobOf[n])
    ensures Follows(s, w, Next(s, NextOf(s.crew, w)), n)
  {
  }

  lemma WorkerStep(s: Pool, w: nat, n: nat)
    requires Awaiting(s, n) && Stage(s.crew, w) > 0
    ensures PlaceOf(s, n).Some? && Next(s, NextOf(s.crew, w)).Valid() && Follows(s, w, Next(s, NextOf(s.crew, w)), n)
  {
    HasPlace(s, n);
    if Stage(s.crew, w) == 2 {
      HasJob(s, w, n);
    }
    WorkerMoves(s, w, n);
    StepKeeps(s, NextOf(s.crew, w));
  }

  /** And its stage goes down by one, unless it ends. */
  lemma WorkerStage(s: Pool, w: nat)
    requires s.Valid() && Stage(s.crew, w) > 0
    ensures var c := Next(s, NextOf(s.crew, w)).crew;
            && (Stage(s.crew, w) > 1 ==> Stage(c, w) == Stage(s.crew, w) - 1)
            && (Stage(s.crew, w) == 1 && s.crew.avail == 0 && s.crew.maxIdle >= 1 ==> c.Waits(w))
  {
    WorkerCan(s, w);
    if w in s.crew.idle {
      assert w != s.crew.next;
    }
  }

  /** A job that a worker has. */
  lemma {:induction false} FromWorker(s: Pool, n: nat, w: nat) returns (more: seq<Step>)
    requires Awaiting(s, n) && PlaceOf(s, n) == Some(WithWorker(w))
    ensures Delivered(Run(s, more), n)
    decreases Stage(s.crew, w)
  {
    HasPlace(s, n);
    assert Stage(s.crew, w) > 1;
    var step := NextOf(s.crew, w);
    WorkerStep(s, w, n);
    WorkerStage(s, w);
    if Stage(s.crew, w) == 2 {
      more := FromStatus(Next(s, step), n);
    } else {
      more := FromWorker(Next(s, step), n, w);
    }
    RunFirst(s, step, more);
    more := [step] + more;
  }

  /** The job queue did not move, and job n did not either. */
  ghost predicate StillQueued(s: Pool, t: Pool, n: nat) {
    Awaiting(t, n) && PlaceOf(t, n) == PlaceOf(s, n) && t.taken == s.taken && t.queued == s.queued
  }

  /** When all workers are busy, one of them gets through. */
  lemma {:induction false} BusyToWaiting(s: Pool, n: nat, w: nat) returns (more: seq<Step>)
    requires Awaiting(s, n) && PlaceOf(s, n).Some? && PlaceOf(s, n).value.InQueue?
    requires s.crew.avail == 0 && w in s.crew.busy
    ensures StillQueued(s, Run(s, more), n) && Run(s, more).crew.Waits(w)
    decreases Stage(s.crew, w)
  {
    assert w !in s.crew.idle;
    var step := NextOf(s.crew, w);
    WorkerStep(s, w, n);
    WorkerStage(s, w);
    more := [];
    if Stage(s.crew, w) > 1 {
      WorkerCan(s, w);
      more := BusyToWaiting(Next(s, step), n, w);
    }
    RunFirst(s, step, more);
    more := [step] + more;
  }

  lemma Smallest<K, V>(m: map<K, V>)
    ensures |m| == 0 <==> m == map[]
  {
    assert |m| == |m.Keys|;
  }

  /** A worker begins with its job: another one is started, or one less is idle. */
  lemma BeginOne(s: Pool, w: nat)
    requires s.Valid() && w in s.crew.idle && s.crew.idle[w].Some?
    ensures var c := Next(s, Begin(w)).crew; |c.idle| < |s.crew.idle| || (exists v :: c.Waits(v))
  {
    WorkerCan(s, w);
    Cut(s.crew.idle, w);
    var c := Next(s, Begin(w)).crew;
    assert c.idle == s.crew.idle - {w} || c.Waits(s.crew.next);
  }

  /** Some worker comes to wait for a job. */
  lemma {:induction false} SomeWaits(s: Pool, n: nat) returns (more: seq<Step>, w: nat)
    requires Awaiting(s, n) && PlaceOf(s, n).Some? && PlaceOf(s, n).value.InQueue?
    ensures StillQueued(s, Run(s, more), n) && Run(s, more).crew.Waits(w)
    decreases |s.crew.idle|
  {
    more := [];
    if v :| v in s.crew.idle && s.crew.Waits(v) {
      w := v;
    } else if v :| v in s.crew.idle {
      var t := Next(s, Begin(v));
      WorkerStep(s, v, n);
      BeginOne(s, v);
      if u :| u in t.crew.idle && t.crew.Waits(u) {
        w := u;
      } else {
        more, w := SomeWaits(t, n);
      }
      RunFirst(s, Begin(v), more);
      more := [Begin(v)] + more;
    } else {
      Smallest(s.crew.idle);
      Smallest(s.crew.busy);
      w :| w in s.crew.busy;
      more := BusyToWaiting(s, n, w);
    }
  }

  lemma PickOne(s: Pool, n: nat, w: nat)
    requires Awaiting(s, n) && PlaceOf(s, n).Some? && PlaceOf(s, n).value.InQueue? && s.crew.Waits(w)
    ensures var t, i := Next(s, Pick(w)), PlaceOf(s, n).value.i;
            && Awaiting(t, n) && s.taken <= i && t.taken == s.taken + 1
            && PlaceOf(t, n) == if i == s.taken then Some(WithWorker(w)) else PlaceOf(s, n)
  {
    HasPlace(s, n);
    assert Can(s, Pick(w));
    StepKeeps(s, Pick(w));
    assert s.Ref(InQueue(s.taken)) == Some(s.queued[s.taken]);
  }

  /** A job in the queue. */
  lemma {:induction false} FromQueue(s: Pool, n: nat) returns (more: seq<Step>)
    requires Awaiting(s, n) && PlaceOf(s, n).Some? && PlaceOf(s, n).value.InQueue?
    ensures Delivered(Run(s, more), n)
    decreases PlaceOf(s, n).value.i - s.taken
  {
    HasPlace(s, n);
    var before, w := SomeWaits(s, n);
    var t := Run(s, before);
    var u := Next(t, Pick(w));
    PickOne(t, n, w);
    var rest;
    if PlaceOf(s, n).value.i == s.taken {
      rest := FromWorker(u, n, w);
    } else {
      rest := FromQueue(u, n);
    }
    RunFirst(t, Pick(w), rest);
    RunOn(s, before, [Pick(w)] + rest);
    more := before + ([Pick(w)] + rest);
  }

  lemma AddOne(s: Pool, n: nat, mode: Mode)
    requires Awaiting(s, n) && PlaceOf(s, n).Some? && PlaceOf(s, n).value.Adding?
    ensures var t := Next(s, Add(s.records.jobOf[n], mode));
            if mode == Return && n in t.records.refused then true
            else Awaiting(t, n) && PlaceOf(t, n).Some? && (PlaceOf(t, n).value.InQueue? || PlaceOf(t, n).value.InStatus?)
  {
    HasPlace(s, n);
    var j := s.records.jobOf[n];
    assert Can(s, Add(j, mode));
    StepKeeps(s, Add(j, mode));
  }

  /** Any job; mode is the one that it was added with. */
  lemma FromAnywhere(s: Pool, n: nat, mode: Mode) returns (more: seq<Step>)
    requires Awaiting(s, n)
    ensures Delivered(Run(s, more), n) || (mode == Return && n in Run(s, more).records.refused)
  {
    HasPlace(s, n);
    match PlaceOf(s, n).value
    case InStatus(_) => more := FromStatus(s, n);
    case WithWorker(w) => more := FromWorker(s, n, w);
    case InQueue(_) => more := FromQueue(s, n);
    case Adding(_) =>
      var step := Add(s.records.jobOf[n], mode);
      AddOne(s, n, mode);
      more := [];
      if !(mode == Return && n in Next(s, step).records.refused) {
        if PlaceOf(Next(s, step), n).value.InQueue? {
          more := FromQueue(Next(s, step), n);
        } else {
          more := FromStatus(Next(s, step), n);
        }
      }
      RunFirst(s, step, more);
      more := [step] + more;
  }

  /**
   From every state that can be reached, before the queue is closed, every job on its way can still
   deliver its status, or be refused if it asked for that; no state is a dead end for it.
   */
  lemma StatusCanCome(max: nat, maxIdle: nat, steps: seq<Step>, n: nat, mode: Mode) returns (more: seq<Step>)
    requires maxIdle >= 1 && n < |Run(Start(max, maxIdle), steps).records.jobOf|
    requires var s := Run(Start(max, maxIdle), steps); !s.crew.closed && s.records.Live(n)
    ensures var t := Run(Start(max, maxIdle), steps + more);
            Delivered(t, n) || (mode == Return && n in t.records.refused)
  {
    RunKeeps(max, maxIdle, steps);
    LimitsStay(max, maxIdle, steps);
    more := FromAnywhere(Run(Start(max, maxIdle), steps), n, mode);
    RunOn(Start(max, maxIdle), steps, more);
  }
}
