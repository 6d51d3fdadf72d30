/**
 The reader-writer locks of chunkrwlock.c: one record per locked chunk, taken from a free list when
 the first request comes and given back when nobody holds or awaits it. Every operation is atomic
 under one mutex up to the point where it waits on a condition.
 */
module RwLock {
  import opened Tally

  const FREE_LIMIT: nat := 1024

  /** Where the thread of a request is: holding the lock, blocked on a condition, or woken up. */
  datatype Place = Reading | Writing | RBlocked | RReady | WBlocked | WReady

  /** All readers blocked on the condition wake up. */
  function Woken(at: map<nat, Place>): (w: map<nat, Place>)
    ensures w.Keys == at.Keys
  {
    map r | r in at :: if at[r] == RBlocked then RReady else at[r]
  }

  lemma WokenCounts(at: map<nat, Place>, q: Place)
    ensures Count(Woken(at), q) ==
            if q == RBlocked then 0 else if q == RReady then Count(at, RBlocked) + Count(at, RReady) else Count(at, q)
  {
    if q == RReady {
      assert At(Woken(at), q) == At(at, RBlocked) + At(at, RReady);
      assert At(at, RBlocked) !! At(at, RReady);
    } else if q == RBlocked {
      assert At(Woken(at), q) == {};
    } else {
      assert At(Woken(at), q) == At(at, q);
    }
  }

  /** chunkrec, and the requests that hold or await it. */
  datatype Lock = Lock(
    id: nat,                     // the record
    writing: nat,
    activeReaders: nat,
    waitingReaders: nat,
    waitingWriters: nat,
    at: map<nat, Place>)
  {
    predicate Unused() {
      writing == 0 && activeReaders == 0 && waitingReaders == 0 && waitingWriters == 0
    }

    ghost predicate Counts() {
      && writing == Count(at, Writing) && activeReaders == Count(at, Reading)
      && waitingReaders == Count(at, RBlocked) + Count(at, RReady)
      && waitingWriters == Count(at, WBlocked) + Count(at, WReady)
    }

    /** Never a writer together with a reader or another writer. */
    ghost predicate Exclusive() {
      writing <= 1 && (writing == 1 ==> activeReaders == 0)
    }

    /** A lock that a waiter could take has a waiter of that kind awake. */
    ghost predicate NoLostWakeup() {
      && (writing == 0 && waitingWriters == 0 ==> Count(at, RBlocked) == 0)
      && (writing == 0 && activeReaders == 0 && waitingWriters > 0 ==> Count(at, WReady) > 0)
    }

    ghost predicate Valid() {
      Counts() && Exclusive() && NoLostWakeup()
    }

    // ----- What the operations do to a record -----

    /** The loop of chunkrwlock_rlock, for a request that is counted as waiting. */
    function TryRead(req: nat): Lock
      requires waitingReaders > 0
    {
      if writing != 0 || waitingWriters != 0 then this.(at := at[req := RBlocked])
      else this.(waitingReaders := waitingReaders - 1, activeReaders := activeReaders + 1, at := at[req := Reading])
    }

    function TryWrite(req: nat): Lock
      requires waitingWriters > 0
    {
      if activeReaders != 0 || writing != 0 then this.(at := at[req := WBlocked])
      else this.(waitingWriters := waitingWriters - 1, writing := 1, at := at[req := Writing])
    }

    function RLock(req: nat): Lock {
      this.(waitingReaders := waitingReaders + 1).TryRead(req)
    }

    function WLock(req: nat): Lock {
      this.(waitingWriters := waitingWriters + 1).TryWrite(req)
    }

    /** pthread_cond_signal on wcond wakes one of the threads blocked there, if there is one. */
    function SignalWriter(chosen: nat): Lock {
      if chosen in at && at[chosen] == WBlocked then this.(at := at[chosen := WReady]) else this
    }

    function RUnlock(req: nat, chosen: nat): Lock
      requires activeReaders > 0
    {
      var l := this.(activeReaders := activeReaders - 1, at := at - {req});
      if l.activeReaders == 0 && l.waitingWriters > 0 then l.SignalWriter(chosen) else l
    }

    function WUnlock(req: nat, chosen: nat): Lock {
      var l := this.(writing := 0, at := at - {req});
      if l.waitingWriters > 0 then l.SignalWriter(chosen)
      else if l.waitingReaders > 0 then l.(at := Woken(l.at))
      else l
    }

    /** A thread may return from its wait without a signal. */
    function Spurious(req: nat): Lock {
      if req in at && at[req] == RBlocked then this.(at := at[req := RReady]) else SignalWriter(req)
    }

    /** The choice of a signal: one of those blocked, whenever there is one. */
    predicate Chooses(chosen: nat) {
      Count(at, WBlocked) > 0 ==> chosen in at && at[chosen] == WBlocked
    }
  }

  function NewLock(id: nat): (l: Lock)
    ensures l.Valid() && l.Unused() && l.at == map[]
  {
    var l := Lock(id, 0, 0, 0, 0, map[]);
    Empty(l.at, Writing); Empty(l.at, Reading); Empty(l.at, RBlocked);
    Empty(l.at, RReady); Empty(l.at, WBlocked); Empty(l.at, WReady);
    l
  }

  lemma MovedAll(at: map<nat, Place>, r: nat, p: Place)
    ensures forall q :: Count(at[r := p], q) == Count(at, q) + Delta(at, r, p, q)
  {
    forall q ensures Count(at[r := p], q) == Count(at, q) + Delta(at, r, p, q) {
      Moved(at, r, p, q);
    }
  }

  lemma RLockKeeps(l: Lock, req: nat)
    requires l.Valid() && (req in l.at ==> l.at[req] == RReady)
    requires req in l.at ==> l.waitingReaders > 0
    ensures var m := if req in l.at then l.TryRead(req) else l.RLock(req);
            && m.Valid() && !m.Unused() && m.at.Keys == l.at.Keys + {req} && m.id == l.id
            && (m.at[req] == Reading <==> l.writing == 0 && l.waitingWriters == 0)
  {
    MovedAll(l.at, req, RBlocked);
    MovedAll(l.at, req, Reading);
  }

  lemma WLockKeeps(l: Lock, req: nat)
    requires l.Valid() && (req in l.at ==> l.at[req] == WReady)
    requires req in l.at ==> l.waitingWriters > 0
    ensures var m := if req in l.at then l.TryWrite(req) else l.WLock(req);
            && m.Valid() && !m.Unused() && m.at.Keys == l.at.Keys + {req} && m.id == l.id
            && (m.at[req] == Writing <==> l.writing == 0 && l.activeReaders == 0)
  {
    MovedAll(l.at, req, WBlocked);
    MovedAll(l.at, req, Writing);
  }

  lemma SignalKeeps(l: Lock, chosen: nat)
    requires l.Counts() && l.Exclusive() && l.Chooses(chosen) && l.waitingWriters > 0
    ensures l.SignalWriter(chosen).Valid() && l.SignalWriter(chosen).at.Keys == l.at.Keys
  {
    MovedAll(l.at, chosen, WReady);
  }

  lemma GoneAll(at: map<nat, Place>, r: nat)
    requires r in at
    ensures forall q :: Count(at - {r}, q) == Count(at, q) - if at[r] == q then 1 else 0
  {
    forall q ensures Count(at - {r}, q) == Count(at, q) - if at[r] == q then 1 else 0 {
      Gone(at, r, q);
    }
  }

  lemma RUnlockKeeps(l: Lock, req: nat, chosen: nat)
    requires l.Valid() && req in l.at && l.at[req] == Reading && l.Chooses(chosen)
    ensures l.activeReaders > 0
    ensures var m := l.RUnlock(req, chosen); m.Valid() && m.at.Keys == l.at.Keys - {req} && m.id == l.id
  {
    GoneAll(l.at, req);
    var m := l.(activeReaders := l.activeReaders - 1, at := l.at - {req});
    if m.activeReaders == 0 && m.waitingWriters > 0 {
      SignalKeeps(m, chosen);
    }
  }

  lemma WUnlockKeeps(l: Lock, req: nat, chosen: nat)
    requires l.Valid() && req in l.at && l.at[req] == Writing && l.Chooses(chosen)
    ensures var m := l.WUnlock(req, chosen); m.Valid() && m.at.Keys == l.at.Keys - {req} && m.id == l.id
  {
    GoneAll(l.at, req);
    var m := l.(writing := 0, at := l.at - {req});
    if m.waitingWriters > 0 {
      SignalKeeps(m, chosen);
    } else {
      WokenCounts(m.at, Writing); WokenCounts(m.at, Reading); WokenCounts(m.at, RBlocked);
      WokenCounts(m.at, RReady); WokenCounts(m.at, WBlocked); WokenCounts(m.at, WReady);
    }
  }

  lemma SpuriousKeeps(l: Lock, req: nat)
    requires l.Valid()
    ensures var m := l.Spurious(req); m.Valid() && m.at.Keys == l.at.Keys && m.Unused() == l.Unused() && m.id == l.id
  {
    MovedAll(l.at, req, RReady);
    MovedAll(l.at, req, WReady);
  }

  // ----- The table of records -----

  datatype Key = Key(inode: nat, indx: nat)

  datatype State = State(
    locks: map<Key, Lock>,       // the hash table
    free: seq<nat>,              // records on the free list
    nextId: nat,                 // records ever allocated
    nextReq: nat,                // requests ever made
    cr: map<nat, nat>)           // the record that the thread of a request got

  const START: State := State(map[], [], 0, 0, map[])

  /** chunkrwlock_get: the record in the table, or one from the free list, or a new one. */
  function GetLock(s: State, key: Key): Lock {
    if key in s.locks then s.locks[key]
    else if |s.free| == 0 then NewLock(s.nextId)
    else NewLock(s.free[|s.free| - 1])
  }

  function Got(s: State, key: Key): State {
    if key in s.locks then s
    else if |s.free| == 0 then s.(nextId := s.nextId + 1)
    else s.(free := s.free[..|s.free| - 1])
  }

  /** A thread starts an operation on the record with the given id. */
  function Requested(s: State, id: nat): State {
    s.(nextReq := s.nextReq + 1, cr := s.cr[s.nextReq := id])
  }

  /** chunkrwlock_release. */
  function Release(s: State, key: Key, l: Lock): State {
    if l.Unused() then s.(locks := s.locks - {key}, free := if |s.free| > FREE_LIMIT then s.free else s.free + [l.id])
    else s.(locks := s.locks[key := l])
  }

  datatype Step =
    | RLock(key: Key)
    | WLock(key: Key)
    | Resume(key: Key, req: nat)                   // a thread that was woken up looks again
    | RUnlock(key: Key, req: nat, chosen: nat)
    | WUnlock(key: Key, req: nat, chosen: nat)
    | Wake(key: Key, req: nat)                     // a thread returns from its wait unasked

  /** Whether a request is known for a chunk and in the given place. */
  predicate In(s: State, key: Key, req: nat, p: Place) {
    key in s.locks && req in s.locks[key].at && s.locks[key].at[req] == p
  }

  function Next(s: State, step: Step): State {
    match step
    case RLock(key) =>
      var l := GetLock(s, key);
      Release(Requested(Got(s, key), l.id), key, l.RLock(s.nextReq))
    case WLock(key) =>
      var l := GetLock(s, key);
      Release(Requested(Got(s, key), l.id), key, l.WLock(s.nextReq))
    case Resume(key, req) =>
      if In(s, key, req, RReady) && s.locks[key].waitingReaders > 0 then Release(s, key, s.locks[key].TryRead(req))
      else if In(s, key, req, WReady) && s.locks[key].waitingWriters > 0 then Release(s, key, s.locks[key].TryWrite(req))
      else s
    case RUnlock(key, req, chosen) =>
      if In(s, key, req, Reading) && s.locks[key].activeReaders > 0 && s.locks[key].Chooses(chosen) then
        Release(s, key, s.locks[key].RUnlock(req, chosen))
      else s
    case WUnlock(key, req, chosen) =>
      if In(s, key, req, Writing) && s.locks[key].Chooses(chosen) then
        Release(s, key, s.locks[key].WUnlock(req, chosen))
      else s
    case Wake(key, req) =>
      if key in s.locks then s.(locks := s.locks[key := s.locks[key].Spurious(req)]) else s
  }

  function Run(steps: seq<Step>): State {
    if |steps| == 0 then START else Next(Run(steps[..|steps| - 1]), steps[|steps| - 1])
  }

  /** A record in the table: sound, in use, and the one its requests point at. */
  ghost predicate InUse(s: State, key: Key)
    requires key in s.locks
  {
    var l := s.locks[key];
    && l.Valid() && !l.Unused()
    && forall r :: r in l.at ==> r < s.nextReq && r in s.cr && s.cr[r] == l.id
  }

  /** No record is in two places. */
  ghost predicate Distinct(s: State) {
    && (forall k :: k in s.locks ==> s.locks[k].id < s.nextId && s.locks[k].id !in s.free)
    && (forall k, m :: k in s.locks && m in s.locks && k != m ==> s.locks[k].id != s.locks[m].id)
    && (forall i :: 0 <= i < |s.free| ==> s.free[i] < s.nextId)
    && (forall i, j :: 0 <= i < j < |s.free| ==> s.free[i] != s.free[j])
    && |s.free| <= FREE_LIMIT + 1
  }

  ghost predicate Inv(s: State) {
    Distinct(s) && forall k :: k in s.locks ==> InUse(s, k)
  }

  lemma UnusedIsEmpty(l: Lock)
    requires l.Valid() && l.Unused()
    ensures l.at == map[]
  {
    if r :| r in l.at {
      Counted(l.at, r);
      match l.at[r] {
        case Reading => assert false;
        case Writing => assert false;
        case RBlocked => assert false;
        case RReady => assert false;
        case WBlocked => assert false;
        case WReady => assert false;
      }
    }
  }

  /** A record that may be put into the table under key: nobody else has it, and its requests know it. */
  ghost predicate Fits(s: State, key: Key, l: Lock) {
    && l.Valid() && l.id < s.nextId && l.id !in s.free
    && (forall r :: r in l.at ==> r < s.nextReq && r in s.cr && s.cr[r] == l.id)
    && (forall k :: k in s.locks && k != key ==> s.locks[k].id != l.id)
  }

  /** Getting a record: the one in the table, or one that nobody has. */
  lemma GetKeeps(s: State, key: Key)
    requires Inv(s)
    ensures Inv(Got(s, key)) && Fits(Got(s, key), key, GetLock(s, key))
    ensures Got(s, key).nextReq == s.nextReq && s.nextReq !in GetLock(s, key).at
  {
    var t := Got(s, key);
    if key in s.locks {
      assert InUse(s, key);
    } else if |s.free| > 0 {
      var n := |s.free| - 1;
      assert s.free[n] in s.free;
      forall i | 0 <= i < n ensures t.free[i] == s.free[i] && t.free[i] in s.free {
      }
    }
    forall k | k in t.locks ensures InUse(t, k) {
      assert InUse(s, k);
    }
  }

  lemma StoredDistinct(s: State, key: Key, l: Lock)
    requires Distinct(s) && Fits(s, key, l)
    ensures Distinct(s.(locks := s.locks[key := l]))
  {
  }

  lemma RemovedDistinct(s: State, key: Key, l: Lock)
    requires Distinct(s) && Fits(s, key, l)
    ensures Distinct(s.(locks := s.locks - {key}))
    ensures |s.free| <= FREE_LIMIT ==> Distinct(s.(locks := s.locks - {key}, free := s.free + [l.id]))
  {
  }

  /** Putting a record back. */
  lemma ReleaseKeeps(s: State, key: Key, l: Lock)
    requires Inv(s) && Fits(s, key, l)
    ensures Inv(Release(s, key, l))
  {
    var t := Release(s, key, l);
    if l.Unused() {
      RemovedDistinct(s, key, l);
    } else {
      StoredDistinct(s, key, l);
    }
    forall k | k in t.locks ensures InUse(t, k) {
      assert k != key ==> InUse(s, k);
    }
  }

  /** A new request is known to the record it asked for only. */
  lemma NewRequest(s: State, id: nat)
    requires Inv(s)
    ensures Inv(Requested(s, id))
  {
    var t := Requested(s, id);
    forall k | k in t.locks ensures InUse(t, k) {
      assert InUse(s, k);
    }
  }

  /** A locking operation makes a request and puts the record back. */
  lemma RequestKeeps(s: State, key: Key, l: Lock, m: Lock)
    requires Inv(s) && Fits(s, key, l)
    requires m.Valid() && m.id == l.id && m.at.Keys == l.at.Keys + {s.nextReq}
    ensures Inv(Release(Requested(s, l.id), key, m))
  {
    NewRequest(s, l.id);
    ReleaseKeeps(Requested(s, l.id), key, m);
  }

  lemma RLockStep(s: State, key: Key)
    requires Inv(s)
    ensures Inv(Next(s, Step.RLock(key)))
  {
    GetKeeps(s, key);
    var l := GetLock(s, key);
    RLockKeeps(l, s.nextReq);
    RequestKeeps(Got(s, key), key, l, l.RLock(s.nextReq));
  }

  lemma WLockStep(s: State, key: Key)
    requires Inv(s)
    ensures Inv(Next(s, Step.WLock(key)))
  {
    GetKeeps(s, key);
    var l := GetLock(s, key);
    WLockKeeps(l, s.nextReq);
    RequestKeeps(Got(s, key), key, l, l.WLock(s.nextReq));
  }

  /** Any other operation changes a record that is in the table. */
  lemma ChangeKeeps(s: State, key: Key, m: Lock)
    requires Inv(s) && key in s.locks
    requires m.Valid() && m.id == s.locks[key].id && m.at.Keys <= s.locks[key].at.Keys
    ensures Inv(Release(s, key, m))
  {
    assert InUse(s, key);
    ReleaseKeeps(s, key, m);
  }

  lemma ResumeStep(s: State, key: Key, req: nat)
    requires Inv(s)
    ensures Inv(Next(s, Resume(key, req)))
  {
    if In(s, key, req, RReady) && s.locks[key].waitingReaders > 0 {
      assert InUse(s, key);
      RLockKeeps(s.locks[key], req);
      ChangeKeeps(s, key, s.locks[key].TryRead(req));
    } else if In(s, key, req, WReady) && s.locks[key].waitingWriters > 0 {
      assert InUse(s, key);
      WLockKeeps(s.locks[key], req);
      ChangeKeeps(s, key, s.locks[key].TryWrite(req));
    }
  }

  lemma RUnlockStep(s: State, key: Key, req: nat, chosen: nat)
    requires Inv(s)
    ensures Inv(Next(s, Step.RUnlock(key, req, chosen)))
  {
    if In(s, key, req, Reading) && s.locks[key].activeReaders > 0 && s.locks[key].Chooses(chosen) {
      assert InUse(s, key);
      RUnlockKeeps(s.locks[key], req, chosen);
      ChangeKeeps(s, key, s.locks[key].RUnlock(req, chosen));
    }
  }

  lemma WUnlockStep(s: State, key: Key, req: nat, chosen: nat)
    requires Inv(s)
    ensures Inv(Next(s, Step.WUnlock(key, req, chosen)))
  {
    if In(s, key, req, Writing) && s.locks[key].Chooses(chosen) {
      assert InUse(s, key);
      WUnlockKeeps(s.locks[key], req, chosen);
      ChangeKeeps(s, key, s.locks[key].WUnlock(req, chosen));
    }
  }

  lemma WakeStep(s: State, key: Key, req: nat)
    requires Inv(s)
    ensures Inv(Next(s, Wake(key, req)))
  {
    if key in s.locks {
      assert InUse(s, key);
      SpuriousKeeps(s.locks[key], req);
      ChangeKeeps(s, key, s.locks[key].Spurious(req));
    }
  }

  lemma StepKeeps(s: State, step: Step)
    requires Inv(s)
    ensures Inv(Next(s, step))
  {
    match step
    case RLock(key) => RLockStep(s, key);
    case WLock(key) => WLockStep(s, key);
    case Resume(key, req) => ResumeStep(s, key, req);
    case RUnlock(key, req, chosen) => RUnlockStep(s, key, req, chosen);
    case WUnlock(key, req, chosen) => WUnlockStep(s, key, req, chosen);
    case Wake(key, req) => WakeStep(s, key, req);
  }

  lemma {:induction false} RunKeeps(steps: seq<Step>)
    ensures Inv(Run(steps))
  {
    if |steps| > 0 {
      RunKeeps(steps[..|steps| - 1]);
      StepKeeps(Run(steps[..|steps| - 1]), steps[|steps| - 1]);
    }
  }

  // ----- Results -----

  /** At most one holder, unless all are readers. */
  lemma MutualExclusion(steps: seq<Step>, key: Key, r: nat, t: nat)
    requires In(Run(steps), key, r, Writing) && r != t
    ensures !In(Run(steps), key, t, Writing) && !In(Run(steps), key, t, Reading)
  {
    RunKeeps(steps);
    assert InUse(Run(steps), key);
    var at := Run(steps).locks[key].at;
    if In(Run(steps), key, t, Writing) {
      assert {r, t} <= At(at, Writing);
      CardMono({r, t}, At(at, Writing));
    } else if In(Run(steps), key, t, Reading) {
      Counted(at, t);
      Counted(at, r);
    }
  }

  lemma {:induction false} CardMono<T>(a: set<T>, b: set<T>)
    requires a <= b
    ensures |a| <= |b|
    decreases |b|
  {
    if a != b {
      assert !(b <= a);
      var x :| x in b && x !in a;
      CardMono(a, b - {x});
    }
  }

  /** A new reader never gets in while a writer holds the lock or waits for it. */
  lemma NoReaderPastWriter(steps: seq<Step>, key: Key)
    requires key in Run(steps).locks
    requires Run(steps).locks[key].writing != 0 || Run(steps).locks[key].waitingWriters != 0
    ensures In(Next(Run(steps), Step.RLock(key)), key, Run(steps).nextReq, RBlocked)
  {
    RunKeeps(steps);
    var s := Run(steps);
    assert InUse(s, key);
    if s.nextReq in s.locks[key].at {
      assert false;
    }
    RLockKeeps(s.locks[key], s.nextReq);
  }

  /**
   When a lock is free and somebody waits for it, a woken waiter will get it: a writer if writers
   wait, and otherwise any waiting reader.
   */
  lemma FreeLockIsTaken(steps: seq<Step>, key: Key) returns (req: nat)
    requires key in Run(steps).locks
    requires var l := Run(steps).locks[key]; l.writing == 0 && l.activeReaders == 0
    ensures var s := Run(steps);
            if s.locks[key].waitingWriters > 0 then
              In(s, key, req, WReady) && In(Next(s, Resume(key, req)), key, req, Writing)
            else
              In(s, key, req, RReady) && In(Next(s, Resume(key, req)), key, req, Reading)
  {
    RunKeeps(steps);
    var s := Run(steps);
    if s.locks[key].waitingWriters > 0 {
      req := WriterTakes(s, key);
    } else {
      req := ReaderTakes(s, key);
    }
  }

  lemma WriterTakes(s: State, key: Key) returns (req: nat)
    requires Inv(s) && key in s.locks
    requires s.locks[key].writing == 0 && s.locks[key].activeReaders == 0 && s.locks[key].waitingWriters > 0
    ensures In(s, key, req, WReady) && In(Next(s, Resume(key, req)), key, req, Writing)
  {
    assert InUse(s, key);
    req := Pick(s.locks[key].at, WReady);
    WLockKeeps(s.locks[key], req);
  }

  lemma ReaderTakes(s: State, key: Key) returns (req: nat)
    requires Inv(s) && key in s.locks
    requires s.locks[key].writing == 0 && s.locks[key].activeReaders == 0 && s.locks[key].waitingWriters == 0
    ensures In(s, key, req, RReady) && In(Next(s, Resume(key, req)), key, req, Reading)
  {
    assert InUse(s, key);
    req := Pick(s.locks[key].at, RReady);
    RLockKeeps(s.locks[key], req);
  }

  /** The record a thread points at is in the table, under the key it asked for, until it is done. */
  lemma NotRecycledInUse(steps: seq<Step>, key: Key, req: nat)
    requires key in Run(steps).locks && req in Run(steps).locks[key].at
    ensures var s := Run(steps);
            && req in s.cr && s.locks[key].id == s.cr[req] && s.cr[req] !in s.free
            && forall k :: k in s.locks && s.locks[k].id == s.cr[req] ==> k == key
  {
    RunKeeps(steps);
    assert InUse(Run(steps), key);
  }

  // ----- Requests and records over a step -----

  predicate Known(s: State, key: Key, req: nat) {
    key in s.locks && req in s.locks[key].at
  }

  /** The unlocking operations of a request that holds the lock. */
  predicate Ends(s: State, step: Step, key: Key, req: nat) {
    match step
    case RUnlock(k, r, chosen) => k == key && r == req && In(s, key, req, Reading) && s.locks[key].Chooses(chosen)
    case WUnlock(k, r, chosen) => k == key && r == req && In(s, key, req, Writing) && s.locks[key].Chooses(chosen)
    case _ => false
  }

  lemma EmptyIsUnused(l: Lock)
    requires l.Valid() && l.at == map[]
    ensures l.Unused()
  {
    Empty(l.at, Writing); Empty(l.at, Reading); Empty(l.at, RBlocked);
    Empty(l.at, RReady); Empty(l.at, WBlocked); Empty(l.at, WReady);
  }

  /** A record put back stays in the table with its requests, and leaves it exactly without any. */
  lemma ReleaseKnows(s: State, key: Key, l: Lock)
    requires l.Valid()
    ensures key in Release(s, key, l).locks <==> l.at.Keys != {}
    ensures forall req: nat :: Known(Release(s, key, l), key, req) <==> req in l.at
    ensures forall k, req: nat :: k != key ==> Known(Release(s, key, l), k, req) == Known(s, k, req)
  {
    if l.Unused() {
      UnusedIsEmpty(l);
    } else if l.at.Keys == {} {
      EmptyIsUnused(l);
      assert false;
    }
  }

  /** What a step does to the requests for a chunk: it makes one, ends one, or leaves them as they are. */
  ghost predicate Requests(s: State, step: Step, t: State, key: Key) {
    forall req: nat ::
      Known(t, key, req) <==>
      || (Known(s, key, req) && !Ends(s, step, key, req))
      || ((step == Step.RLock(key) || step == Step.WLock(key)) && req == s.nextReq)
  }

  /** A record is in the table exactly while there is a request for it. */
  ghost predicate HasRequests(s: State, key: Key) {
    key in s.locks <==> exists req: nat :: Known(s, key, req)
  }

  lemma InvHasRequests(s: State, key: Key)
    requires Inv(s)
    ensures HasRequests(s, key)
  {
    if key in s.locks {
      assert InUse(s, key);
      if s.locks[key].at == map[] {
        EmptyIsUnused(s.locks[key]);
        assert false;
      }
      var req :| req in s.locks[key].at;
      assert Known(s, key, req);
    }
  }

  lemma NewKnown(s: State, k: Key, m: Lock, key: Key)
    requires Inv(s) && m.Valid() && m.at.Keys == GetLock(s, k).at.Keys + {s.nextReq}
    ensures var t := Release(Requested(Got(s, k), m.id), k, m);
            forall req: nat :: Known(t, key, req) <==> Known(s, key, req) || (key == k && req == s.nextReq)
  {
    ReleaseKnows(Requested(Got(s, k), m.id), k, m);
  }

  lemma RLockRequests(s: State, k: Key, key: Key)
    requires Inv(s)
    ensures Requests(s, Step.RLock(k), Next(s, Step.RLock(k)), key)
  {
    GetKeeps(s, k);
    RLockKeeps(GetLock(s, k), s.nextReq);
    NewKnown(s, k, GetLock(s, k).RLock(s.nextReq), key);
  }

  lemma WLockRequests(s: State, k: Key, key: Key)
    requires Inv(s)
    ensures Requests(s, Step.WLock(k), Next(s, Step.WLock(k)), key)
  {
    GetKeeps(s, k);
    WLockKeeps(GetLock(s, k), s.nextReq);
    NewKnown(s, k, GetLock(s, k).WLock(s.nextReq), key);
  }

  lemma ResumeRequests(s: State, k: Key, r: nat, key: Key)
    requires Inv(s)
    ensures Requests(s, Resume(k, r), Next(s, Resume(k, r)), key)
  {
    if In(s, k, r, RReady) && s.locks[k].waitingReaders > 0 {
      assert InUse(s, k);
      RLockKeeps(s.locks[k], r);
      ReleaseKnows(s, k, s.locks[k].TryRead(r));
    } else if In(s, k, r, WReady) && s.locks[k].waitingWriters > 0 {
      assert InUse(s, k);
      WLockKeeps(s.locks[k], r);
      ReleaseKnows(s, k, s.locks[k].TryWrite(r));
    }
  }

  lemma RUnlockRequests(s: State, k: Key, r: nat, chosen: nat, key: Key)
    requires Inv(s)
    ensures var step := Step.RUnlock(k, r, chosen); Requests(s, step, Next(s, step), key)
  {
    if In(s, k, r, Reading) && s.locks[k].Chooses(chosen) {
      assert InUse(s, k);
      RUnlockKeeps(s.locks[k], r, chosen);
      ReleaseKnows(s, k, s.locks[k].RUnlock(r, chosen));
    }
  }

  lemma WUnlockRequests(s: State, k: Key, r: nat, chosen: nat, key: Key)
    requires Inv(s)
    ensures var step := Step.WUnlock(k, r, chosen); Requests(s, step, Next(s, step), key)
  {
    if In(s, k, r, Writing) && s.locks[k].Chooses(chosen) {
      assert InUse(s, k);
      WUnlockKeeps(s.locks[k], r, chosen);
      ReleaseKnows(s, k, s.locks[k].WUnlock(r, chosen));
    }
  }

  lemma WakeRequests(s: State, k: Key, r: nat, key: Key)
    requires Inv(s)
    ensures Requests(s, Wake(k, r), Next(s, Wake(k, r)), key)
  {
    if k in s.locks {
      assert InUse(s, k);
      SpuriousKeeps(s.locks[k], r);
    }
  }

  lemma StepRequests(s: State, step: Step, key: Key)
    requires Inv(s)
    ensures Requests(s, step, Next(s, step), key)
  {
    match step
    case RLock(k) => RLockRequests(s, k, key);
    case WLock(k) => WLockRequests(s, k, key);
    case Resume(k, r) => ResumeRequests(s, k, r, key);
    case RUnlock(k, r, chosen) => RUnlockRequests(s, k, r, chosen, key);
    case WUnlock(k, r, chosen) => WUnlockRequests(s, k, r, chosen, key);
    case Wake(k, r) => WakeRequests(s, k, r, key);
  }

  /**
   In every run a request stays known, whatever other threads do, until its own unlock; and it is
   made by the step that asks for the lock.
   */
  lemma RequestPersists(steps: seq<Step>, step: Step, key: Key, req: nat)
    ensures var s := Run(steps);
            Known(Next(s, step), key, req) <==>
            || (Known(s, key, req) && !Ends(s, step, key, req))
            || ((step == Step.RLock(key) || step == Step.WLock(key)) && req == s.nextReq)
  {
    RunKeeps(steps);
    StepRequests(Run(steps), step, key);
  }

  /** A record leaves the table exactly when its last request ends, and no request is left then. */
  lemma RecycledWhenUnused(steps: seq<Step>, step: Step, key: Key)
    requires key in Run(steps).locks
    ensures var s := Run(steps);
            key !in Next(s, step).locks <==> exists req: nat :: Ends(s, step, key, req) && s.locks[key].at.Keys == {req}
  {
    var s := Run(steps);
    var t := Next(s, step);
    RunKeeps(steps);
    StepKeeps(s, step);
    StepRequests(s, step, key);
    InvHasRequests(t, key);
    InvHasRequests(s, key);
    if key !in t.locks {
      LastRequest(s, step, t, key);
    } else {
      NotTheLast(s, step, t, key);
    }
  }

  lemma NotTheLast(s: State, step: Step, t: State, key: Key)
    requires key in s.locks && HasRequests(t, key) && Requests(s, step, t, key) && key in t.locks
    ensures !exists req: nat :: Ends(s, step, key, req) && s.locks[key].at.Keys == {req}
  {
    var r: nat :| Known(t, key, r);
    forall req: nat | Ends(s, step, key, req) ensures s.locks[key].at.Keys != {req} {
      assert Known(s, key, r) && r != req;
      assert r in s.locks[key].at.Keys;
    }
  }

  lemma LastRequest(s: State, step: Step, t: State, key: Key)
    requires key in s.locks && HasRequests(s, key) && Requests(s, step, t, key) && key !in t.locks
    ensures exists req: nat :: Ends(s, step, key, req) && s.locks[key].at.Keys == {req}
  {
    var r: nat :| Known(s, key, r);
    assert Known(t, key, r) <==> Known(s, key, r) && !Ends(s, step, key, r);
    forall q: nat | q in s.locks[key].at ensures q == r {
      assert Known(s, key, q);
      assert Known(t, key, q) <==> Known(s, key, q) && !Ends(s, step, key, q);
    }
    assert s.locks[key].at.Keys == {r};
  }

  // ----- The free list -----

  lemma UnlockIds(l: Lock, req: nat, chosen: nat)
    ensures l.activeReaders > 0 ==> l.RUnlock(req, chosen).id == l.id
    ensures l.WUnlock(req, chosen).id == l.id
  {
  }

  /** A record that leaves the table goes to the end of the free list, unless that is full. */
  lemma RecycledIsFree(steps: seq<Step>, step: Step, key: Key)
    requires key in Run(steps).locks && key !in Next(Run(steps), step).locks
    ensures var s, t := Run(steps), Next(Run(steps), step);
            t.free == if |s.free| > FREE_LIMIT then s.free else s.free + [s.locks[key].id]
  {
    RecycledWhenUnused(steps, step, key);
    var s := Run(steps);
    var req: nat :| Ends(s, step, key, req);
    UnlockIds(s.locks[key], req, step.chosen);
  }

  /** A lock that was not in the table gets the last record of the free list, or a new one if there is none. */
  lemma TakenFromFree(steps: seq<Step>, step: Step, key: Key)
    requires key !in Run(steps).locks && (step == Step.RLock(key) || step == Step.WLock(key))
    ensures var s, t := Run(steps), Next(Run(steps), step);
            && key in t.locks
            && if |s.free| == 0 then t.locks[key].id == s.nextId && t.free == []
               else t.locks[key].id == s.free[|s.free| - 1] && t.free == s.free[..|s.free| - 1]
  {
    var s := Run(steps);
    RunKeeps(steps);
    GetKeeps(s, key);
    RLockKeeps(GetLock(s, key), s.nextReq);
    WLockKeeps(GetLock(s, key), s.nextReq);
  }
}
