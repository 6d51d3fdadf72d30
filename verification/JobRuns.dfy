/**
 What the pool of bgjobs.c does with its jobs, over every run: the operation of a job runs exactly once
 before its status is delivered, unless the job was disabled in time or there was no room for it.
 */
module JobRuns {
  import opened Options
  import opened JobPool

  /** How often the operation of job n runs in all. */
  function Due(r: Records, n: nat): nat {
    if n in r.disabled || n in r.answered then 0 else 1
  }

  /** The operation of a job ran as often as it should by the time it is where it is. */
  ghost predicate Worked(s: Pool, j: nat)
    requires j in s.place && j in s.records.jobs
  {
    var r, state := s.records, s.records.jobs[j].state;
    var n := r.jobs[j].serial;
    && n < |r.ran| && (state == Disabled ==> n in r.disabled)
    && match s.place[j]
       case WithWorker(w) =>
         && n !in r.answered
         && if w in s.crew.busy then state != Enabled && r.ran[n] == (if s.crew.busy[w].Running? then 0 else Due(r, n))
            else r.ran[n] == 0
       case InStatus(_) => (state == Enabled ==> n in r.answered) && r.ran[n] == Due(r, n)
       case _ => n !in r.answered && r.ran[n] == 0
  }

  ghost predicate AllWorked(s: Pool) {
    forall j :: j in s.place ==> j in s.records.jobs && Worked(s, j)
  }

  /** The same for jobs that are gone. */
  ghost predicate Ended(r: Records, n: nat)
    requires n < |r.jobOf|
  {
    !r.Live(n) ==> n < |r.ran| && r.ran[n] == if n in r.refused then 0 else Due(r, n)
  }

  ghost predicate AllEnded(r: Records) {
    forall n :: 0 <= n < |r.jobOf| ==> Ended(r, n)
  }

  ghost predicate Inv(s: Pool) {
    s.Valid() && AllWorked(s) && AllEnded(s.records)
  }

  // ----- Records that a step does not touch -----

  ghost predicate SameCounts(r: Records, q: Records, n: nat) {
    && n < |r.ran| && n < |q.ran| && q.ran[n] == r.ran[n]
    && (n in q.disabled <==> n in r.disabled) && (n in q.answered <==> n in r.answered)
    && (n in q.refused <==> n in r.refused)
  }

  /** Only the record of job j changes, or goes. */
  ghost predicate OnlyRecord(r: Records, q: Records, j: nat) {
    && j in r.jobs && q.jobOf == r.jobOf
    && (j in q.jobs ==> q.jobs[j].serial == r.jobs[j].serial)
    && (forall i :: i != j ==> (i in q.jobs <==> i in r.jobs) && (i in r.jobs ==> q.jobs[i] == r.jobs[i]))
    && (forall n: nat :: n < |r.jobOf| && n != r.jobs[j].serial ==> SameCounts(r, q, n))
  }

  lemma NoRecord(r: Records, j: nat)
    requires r.Valid() && j in r.jobs
    ensures OnlyRecord(r, r, j)
  {
  }

  lemma BeginRecord(r: Records, j: nat)
    requires r.Valid() && j in r.jobs
    ensures OnlyRecord(r, r.Begin(j), j) && OnlyRecord(r, r.Disable(j), j)
  {
  }

  lemma PerformRecord(r: Records, j: nat)
    requires r.Valid() && j in r.jobs
    ensures OnlyRecord(r, r.Perform(j), j)
  {
  }

  lemma AnswerRecord(r: Records, j: nat)
    requires r.Valid() && j in r.jobs
    ensures OnlyRecord(r, r.Answer(j), j) && OnlyRecord(r, r.Refuse(j), j)
  {
  }

  lemma DeliverRecord(r: Records, j: nat)
    requires r.Valid() && j in r.jobs
    ensures OnlyRecord(r, r.Deliver(j), j)
  {
  }

  lemma SameLive(r: Records, q: Records, j: nat, n: nat)
    requires OnlyRecord(r, q, j) && n < |r.jobOf| && n != r.jobs[j].serial
    ensures q.Live(n) == r.Live(n)
  {
  }

  /** Jobs that were gone stay gone, as they were. */
  lemma OthersEnded(r: Records, q: Records, j: nat)
    requires AllEnded(r) && OnlyRecord(r, q, j) && r.jobs[j].serial < |r.jobOf| && Ended(q, r.jobs[j].serial)
    ensures AllEnded(q)
  {
    forall n | 0 <= n < |q.jobOf| ensures Ended(q, n) {
      assert Ended(r, n);
      if n != r.jobs[j].serial {
        SameLive(r, q, j, n);
        assert SameCounts(r, q, n);
      }
    }
  }

  // ----- Places that a step does not touch -----

  /** Job i is where it was, and if a worker has it the worker is where it was. */
  ghost predicate SamePlace(s: Pool, t: Pool, i: nat) {
    && i in s.place && i in t.place && t.place[i] == s.place[i]
    && (s.place[i].WithWorker? ==>
          var w := s.place[i].w;
          (w in t.crew.busy <==> w in s.crew.busy) && (w in s.crew.busy ==> t.crew.busy[w] == s.crew.busy[w]))
  }

  lemma StillWorked(s: Pool, t: Pool, i: nat)
    requires SamePlace(s, t, i) && i in s.records.jobs && Worked(s, i)
    requires i in t.records.jobs && t.records.jobs[i] == s.records.jobs[i]
    requires SameCounts(s.records, t.records, s.records.jobs[i].serial)
    ensures Worked(t, i)
  {
  }

  /** Two jobs have two serial numbers. */
  lemma OtherSerial(r: Records, i: nat, j: nat)
    requires r.Valid() && i in r.jobs && j in r.jobs && i != j
    ensures r.jobs[i].serial != r.jobs[j].serial && r.jobs[i].serial < |r.jobOf|
  {
  }

  /** A worker has no other job. */
  lemma OtherJob(s: Pool, i: nat, j: nat, w: nat)
    requires s.Placed() && i in s.place && j in s.place && i != j && s.place[j] == WithWorker(w)
    ensures s.place[i] != WithWorker(w)
  {
    assert s.Ref(s.place[i]) == Some(i) && s.Ref(s.place[j]) == Some(j);
  }

  /** Job j goes to a new place, or away, or its worker goes on; all others stay as they are. */
  lemma OnlyJob(s: Pool, t: Pool, j: nat)
    requires s.records.Valid() && AllWorked(s) && AllEnded(s.records) && OnlyRecord(s.records, t.records, j)
    requires forall i :: i in t.place && i != j ==> SamePlace(s, t, i)
    requires j in t.place ==> j in t.records.jobs && Worked(t, j)
    requires Ended(t.records, s.records.jobs[j].serial)
    ensures AllWorked(t) && AllEnded(t.records)
  {
    forall i | i in t.place && i != j ensures i in t.records.jobs && Worked(t, i) {
      assert SamePlace(s, t, i) && Worked(s, i);
      OtherSerial(s.records, i, j);
      StillWorked(s, t, i);
    }
    OthersEnded(s.records, t.records, j);
  }

  /** Worker w, which has job j, goes on. */
  lemma OthersStay(s: Pool, t: Pool, j: nat, w: nat)
    requires s.Placed() && j in s.place && s.place[j] == WithWorker(w)
    requires forall i :: i in t.place && i != j ==> i in s.place && t.place[i] == s.place[i]
    requires forall v :: v != w ==> (v in t.crew.busy <==> v in s.crew.busy) && (v in s.crew.busy ==> t.crew.busy[v] == s.crew.busy[v])
    ensures forall i :: i in t.place && i != j ==> SamePlace(s, t, i)
  {
    forall i | i in t.place && i != j ensures SamePlace(s, t, i) {
      OtherJob(s, i, j, w);
    }
  }

  // ----- Every step -----

  lemma NewRuns(s: Pool)
    requires s.records.Valid() && s.Placed() && AllWorked(s) && AllEnded(s.records) && Can(s, New)
    ensures AllWorked(AddJob(s)) && AllEnded(AddJob(s).records)
  {
    var t, j := AddJob(s), s.records.nextjobid;
    forall i | i in t.place && i != j ensures i in t.records.jobs && Worked(t, i) {
      assert Worked(s, i);
      StillWorked(s, t, i);
    }
    forall n | 0 <= n < |t.records.jobOf| ensures Ended(t.records, n) {
      if n < |s.records.jobOf| {
        assert Ended(s.records, n);
      }
    }
  }

  /** A job that is being added. */
  lemma AddedJob(s: Pool, j: nat)
    requires s.records.Valid() && s.Placed() && AllWorked(s) && j in s.adding && j in s.records.jobs
    ensures j in s.place && s.place[j] == Adding(j) && Worked(s, j)
    ensures var n := s.records.jobs[j].serial; n < |s.records.jobOf| && s.records.Live(n) && n !in s.records.refused
  {
    assert s.Ref(Adding(j)) == Some(j);
    assert s.records.Settled(s.records.jobs[j].serial);
  }

  lemma RefusedRuns(s: Pool, j: nat, mode: Mode)
    requires s.records.Valid() && s.Placed() && AllWorked(s) && AllEnded(s.records) && Can(s, Add(j, mode))
    requires TooMany(s, s.adding[j]) && mode == Return
    ensures AllWorked(PlaceJob(s, j, mode)) && AllEnded(PlaceJob(s, j, mode).records)
  {
    AddedJob(s, j);
    AnswerRecord(s.records, j);
    OnlyJob(s, PlaceJob(s, j, mode), j);
  }

  lemma AnsweredRuns(s: Pool, j: nat, mode: Mode)
    requires s.records.Valid() && s.Placed() && AllWorked(s) && AllEnded(s.records) && Can(s, Add(j, mode))
    requires TooMany(s, s.adding[j]) && mode == Queue
    ensures AllWorked(PlaceJob(s, j, mode)) && AllEnded(PlaceJob(s, j, mode).records)
  {
    AddedJob(s, j);
    AnswerRecord(s.records, j);
    OnlyJob(s, PlaceJob(s, j, mode), j);
  }

  lemma QueuedRuns(s: Pool, j: nat, mode: Mode)
    requires s.records.Valid() && s.Placed() && AllWorked(s) && AllEnded(s.records) && Can(s, Add(j, mode))
    requires !TooMany(s, s.adding[j]) || mode == Always
    ensures AllWorked(PlaceJob(s, j, mode)) && AllEnded(PlaceJob(s, j, mode).records)
  {
    AddedJob(s, j);
    NoRecord(s.records, j);
    OnlyJob(s, PlaceJob(s, j, mode), j);
  }

  lemma AddRuns(s: Pool, j: nat, mode: Mode)
    requires s.records.Valid() && s.Placed() && AllWorked(s) && AllEnded(s.records) && Can(s, Add(j, mode))
    ensures AllWorked(PlaceJob(s, j, mode)) && AllEnded(PlaceJob(s, j, mode).records)
  {
    if !TooMany(s, s.adding[j]) || mode == Always {
      QueuedRuns(s, j, mode);
    } else if mode == Return {
      RefusedRuns(s, j, mode);
    } else {
      AnsweredRuns(s, j, mode);
    }
  }

  lemma PickRuns(s: Pool, w: nat)
    requires s.records.Valid() && s.Placed() && AllWorked(s) && AllEnded(s.records) && Can(s, Pick(w)) && w !in s.crew.busy
    ensures AllWorked(PickJob(s, w)) && AllEnded(PickJob(s, w).records)
  {
    var j := s.queued[s.taken];
    assert s.Ref(InQueue(s.taken)) == Some(j);
    assert s.place[j] == InQueue(s.taken) && Worked(s, j);
    NoRecord(s.records, j);
    OnlyJob(s, PickJob(s, w), j);
  }

  lemma BeginRuns(s: Pool, w: nat)
    requires s.records.Valid() && s.Placed() && AllWorked(s) && AllEnded(s.records)
    requires Can(s, Begin(w)) && w !in s.crew.busy
    ensures var t := Next(s, Begin(w)); AllWorked(t) && AllEnded(t.records)
  {
    var t, j := Next(s, Begin(w)), s.crew.idle[w].value;
    assert s.Ref(WithWorker(w)) == Some(j);
    assert s.place[j] == WithWorker(w) && Worked(s, j);
    BeginRecord(s.records, j);
    OthersStay(s, t, j, w);
    OnlyJob(s, t, j);
  }

  /** The job that a busy worker has. */
  lemma BusyJob(s: Pool, w: nat)
    requires s.Placed() && w in s.crew.busy && w !in s.crew.idle && s.crew.busy[w] != Sent
    ensures var j := s.crew.busy[w].job; j in s.place && s.place[j] == WithWorker(w)
  {
    assert s.Ref(WithWorker(w)) == Some(s.crew.busy[w].job);
  }

  lemma DoRuns(s: Pool, w: nat, status: nat)
    requires s.records.Valid() && s.records.DisabledRest() && s.Placed() && s.AllTasked() && AllWorked(s) && AllEnded(s.records)
    requires Can(s, Do(w, status)) && w !in s.crew.idle
    ensures var t := Next(s, Do(w, status)); AllWorked(t) && AllEnded(t.records)
  {
    var t, j := Next(s, Do(w, status)), s.crew.busy[w].job;
    BusyJob(s, w);
    assert Worked(s, j) && s.Tasked(j);
    NoRecord(s.records, j);
    PerformRecord(s.records, j);
    OthersStay(s, t, j, w);
    OnlyJob(s, t, j);
  }

  lemma MarkRuns(s: Pool, w: nat)
    requires s.records.Valid() && s.Placed() && AllWorked(s) && AllEnded(s.records)
    requires Can(s, Mark(w)) && w !in s.crew.idle
    ensures var t := Next(s, Mark(w)); AllWorked(t) && AllEnded(t.records)
  {
    var t, j := Next(s, Mark(w)), s.crew.busy[w].job;
    BusyJob(s, w);
    assert Worked(s, j);
    NoRecord(s.records, j);
    OthersStay(s, t, j, w);
    OnlyJob(s, t, j);
  }

  lemma ReportRuns(s: Pool, w: nat)
    requires s.records.Valid() && s.Placed() && AllWorked(s) && AllEnded(s.records)
    requires Can(s, Report(w)) && w !in s.crew.idle
    ensures var t := Next(s, Report(w)); AllWorked(t) && AllEnded(t.records)
  {
    var t, j := Next(s, Report(w)), s.crew.busy[w].job;
    BusyJob(s, w);
    assert Worked(s, j);
    NoRecord(s.records, j);
    OthersStay(s, t, j, w);
    OnlyJob(s, t, j);
  }

  /** A worker without a job. */
  lemma NoJobRuns(s: Pool, t: Pool, w: nat)
    requires s.Placed() && AllWorked(s) && s.records.Valid() && t.records == s.records && t.place == s.place
    requires s.Ref(WithWorker(w)) == None
    requires forall v :: v != w ==> (v in t.crew.busy <==> v in s.crew.busy) && (v in s.crew.busy ==> t.crew.busy[v] == s.crew.busy[v])
    ensures AllWorked(t)
  {
    forall i | i in t.place ensures i in t.records.jobs && Worked(t, i) {
      assert Worked(s, i) && s.Ref(s.place[i]) == Some(i);
      StillWorked(s, t, i);
    }
  }

  lemma DisableRuns(s: Pool, j: nat)
    requires s.records.Valid() && s.Placed() && AllWorked(s) && AllEnded(s.records)
    ensures var t := Next(s, Disable(j)); AllWorked(t) && AllEnded(t.records)
  {
    if j in s.records.jobs && s.records.jobs[j].state == Enabled {
      assert j in s.place && Worked(s, j);
      BeginRecord(s.records, j);
      OnlyJob(s, Next(s, Disable(j)), j);
    }
  }

  lemma ReceiveRuns(s: Pool)
    requires s.records.Valid() && s.Placed() && AllWorked(s) && AllEnded(s.records) && Can(s, Receive)
    ensures AllWorked(ReceiveStatus(s)) && AllEnded(ReceiveStatus(s).records)
  {
    var t, j := ReceiveStatus(s), s.reports.queue[s.reports.received];
    assert s.Ref(InStatus(s.reports.received)) == Some(j);
    assert s.place[j] == InStatus(s.reports.received) && Worked(s, j);
    assert s.records.Settled(s.records.jobs[j].serial);
    DeliverRecord(s.records, j);
    OnlyJob(s, t, j);
  }

  /** The steps of a worker that has a job. */
  lemma WorkerRuns(s: Pool, step: Step)
    requires Inv(s) && Can(s, step) && (step.Pick? || step.Begin? || step.Do? || step.Mark? || step.Report?)
    ensures AllWorked(Next(s, step)) && AllEnded(Next(s, step).records)
  {
    match step
    case Pick(w) => PickRuns(s, w);
    case Begin(w) => BeginRuns(s, w);
    case Do(w, status) => DoRuns(s, w, status);
    case Mark(w) => MarkRuns(s, w);
    case Report(w) => ReportRuns(s, w);
  }

  lemma StepWorks(s: Pool, step: Step)
    requires Inv(s) && Can(s, step)
    ensures AllWorked(Next(s, step)) && AllEnded(Next(s, step).records)
  {
    match step
    case New => NewRuns(s);
    case Add(j, mode) => AddRuns(s, j, mode);
    case Back(w) => NoJobRuns(s, Next(s, step), w);
    case CloseQueue => NoJobRuns(s, Next(s, step), s.crew.next);
    case Exit(w) => NoJobRuns(s, Next(s, step), w);
    case Disable(j) => DisableRuns(s, j);
    case Receive => ReceiveRuns(s);
    case _ => WorkerRuns(s, step);
  }

  lemma StepRuns(s: Pool, step: Step)
    requires Inv(s)
    ensures Inv(Next(s, step))
  {
    StepKeeps(s, step);
    if Can(s, step) {
      StepWorks(s, step);
    }
  }

  lemma {:induction false} RunRuns(max: nat, maxIdle: nat, steps: seq<Step>)
    ensures Inv(Run(Start(max, maxIdle), steps))
  {
    if |steps| == 0 {
      StartValidPool(max, maxIdle);
    } else {
      RunRuns(max, maxIdle, steps[..|steps| - 1]);
      StepRuns(Run(Start(max, maxIdle), steps[..|steps| - 1]), steps[|steps| - 1]);
    }
  }

  // ----- Results, for every run -----

  /**
   A job whose status was delivered ran its operation exactly once, unless it was disabled before a
   worker began with it or answered for lack of room; then it did not run. No operation runs twice,
   and that of a refused job never does.
   */
  lemma RunsOnce(max: nat, maxIdle: nat, steps: seq<Step>, n: nat)
    requires n < |Run(Start(max, maxIdle), steps).records.jobOf|
    ensures var r := Run(Start(max, maxIdle), steps).records;
            && |r.ran| == |r.deliveries| == |r.jobOf| && r.ran[n] <= 1
            && (r.deliveries[n] == 1 ==> (r.ran[n] == 1 <==> n !in r.disabled && n !in r.answered))
            && (n in r.refused ==> r.ran[n] == 0)
  {
    RunRuns(max, maxIdle, steps);
    var s := Run(Start(max, maxIdle), steps);
    assert s.records.Settled(n) && Ended(s.records, n);
    if s.records.Live(n) {
      assert Worked(s, s.records.jobOf[n]);
    }
  }

  /** No worker has begun with job n. */
  predicate NotBegun(s: Pool, n: nat) {
    && n < |s.records.jobOf| && s.records.Live(n) && s.records.jobOf[n] in s.place
    && match s.place[s.records.jobOf[n]]
       case WithWorker(w) => w !in s.crew.busy
       case InStatus(_) => false
       case _ => true
  }

  lemma StillDisabled(s: Pool, step: Step, n: nat)
    requires n in s.records.disabled
    ensures n in Next(s, step).records.disabled
  {
  }

  lemma {:induction false} StaysDisabled(s: Pool, more: seq<Step>, n: nat)
    requires n in s.records.disabled
    ensures n in Run(s, more).records.disabled
  {
    if |more| > 0 {
      StaysDisabled(s, more[..|more| - 1], n);
      StillDisabled(Run(s, more[..|more| - 1]), more[|more| - 1], n);
    }
  }

  lemma DisableWorks(s: Pool, n: nat)
    requires Inv(s) && NotBegun(s, n)
    ensures n in Next(s, Disable(s.records.jobOf[n])).records.disabled
  {
    var j := s.records.jobOf[n];
    assert Worked(s, j) && s.Tasked(j);
  }

  /** A job that is disabled before a worker begins with it never runs, whatever happens then. */
  lemma DisabledNeverRuns(max: nat, maxIdle: nat, steps: seq<Step>, n: nat, more: seq<Step>)
    requires NotBegun(Run(Start(max, maxIdle), steps), n)
    ensures var j := Run(Start(max, maxIdle), steps).records.jobOf[n];
            var r := Run(Next(Run(Start(max, maxIdle), steps), Disable(j)), more).records;
            n < |r.ran| && r.ran[n] == 0
  {
    var s := Run(Start(max, maxIdle), steps);
    RunRuns(max, maxIdle, steps);
    DisableWorks(s, n);
    var step := Disable(s.records.jobOf[n]);
    StaysDisabled(Next(s, step), more, n);
    RunFirst(s, step, more);
    RunOn(Start(max, maxIdle), steps, [step] + more);
    RunKeeps(max, maxIdle, steps + ([step] + more));
  }

  /** Where a new job goes: into the queue if there is room or it does not ask; else it is refused or answered. */
  lemma AddedExactly(max: nat, maxIdle: nat, steps: seq<Step>, j: nat, mode: Mode)
    requires var s := Run(Start(max, maxIdle), steps); j in s.adding && j in s.records.jobs
    ensures var s := Run(Start(max, maxIdle), steps);
            var t, n := Next(s, Add(j, mode)), s.records.jobs[j].serial;
            var room := |s.queued| - s.taken + s.adding[j] <= max;
            && (t.queued == s.queued + [j] <==> room || mode == Always)
            && (n in t.records.refused <==> !room && mode == Return)
            && (n in t.records.answered <==> !room && mode == Queue)
  {
    RunRuns(max, maxIdle, steps);
    LimitsStay(max, maxIdle, steps);
    AddedJob(Run(Start(max, maxIdle), steps), j);
  }

  /** Never more workers than allowed, nor more idle ones, but always room for one. */
  predicate Bounded(c: Crew) {
    (c.total <= c.max || c.total <= 1) && (c.avail <= c.maxIdle || c.avail <= 1)
  }

  lemma StepBounded(s: Pool, step: Step)
    requires Bounded(s.crew)
    ensures Bounded(Next(s, step).crew)
  {
  }

  lemma {:induction false} WorkersBounded(max: nat, maxIdle: nat, steps: seq<Step>)
    ensures var c := Run(Start(max, maxIdle), steps).crew;
            (c.total <= max || c.total <= 1) && (c.avail <= maxIdle || c.avail <= 1)
  {
    LimitsStay(max, maxIdle, steps);
    if |steps| > 0 {
      var front := steps[..|steps| - 1];
      WorkersBounded(max, maxIdle, front);
      LimitsStay(max, maxIdle, front);
      StepBounded(Run(Start(max, maxIdle), front), steps[|steps| - 1]);
    }
  }
}
