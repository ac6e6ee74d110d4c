/**
 Locks and condition variables over the thread library (threads/thread.c): a thread in lock_acquire sleeps and
 tries again, so each try is a step of its own. Lock `k` uses wait queue `k`, condition variable `c` the wait
 queue `c` places behind those of the locks.
 */
module Locks {
  import opened ReadyLists
  import opened WaitLists
  import opened ThreadRuns

  /** Where a thread resumes: in its own code, or in the loop of lock_acquire. */
  datatype Pc = User | Acquiring(lock: nat)

  /** `free[k]` says that field l of lock k is 0; `inside[k]` are the threads between acquire and release. */
  datatype State = State(sys: Sys, free: seq<bool>, owner: seq<int>, inside: seq<set<int>>, pc: map<int, Pc>)

  /** A call by the running thread. */
  datatype Op =
    | Plain(call: Call)
    | Acquire(k: nat)
    | Release(k: nat)
    | CvWait(c: nat, k: nat)
    | Signal(c: nat, k: nat)
    | Broadcast(c: nat, k: nat)

  ghost predicate Shape(s: State)
  {
    |s.free| == |s.owner| == |s.inside| <= |s.sys.waits|
  }

  /** The index of the wait queue of condition variable `c`. */
  function CvQueue(s: State, c: nat): nat
  {
    |s.free| + c
  }

  /** A try of lock_acquire: take the lock, or sleep; with nobody else to run the thread tries again at once. */
  ghost predicate Tried(s: State, k: nat, s2: State)
    requires Shape(s) && k < |s.free|
  {
    var t := s.sys.p.current;
    if s.free[k] then
      s2 == s.(free := s.free[k := false], owner := s.owner[k := t], inside := s.inside[k := s.inside[k] + {t}],
               pc := s.pc[t := User])
    else if s.sys.p.ready == [] then
      s2 == s.(pc := s.pc[t := Acquiring(k)])
    else
      exists ret :: Next(s.sys, Sleep(k), ret, s2.sys) && s2 == s.(sys := s2.sys, pc := s.pc[t := Acquiring(k)])
  }

  /** lock_release: all waiters are woken, then the lock is free. */
  ghost predicate Released(s: State, k: nat, s2: State)
    requires Shape(s) && k < |s.free|
  {
    if s.free[k] then s2 == s
    else
      exists ret :: Next(s.sys, Wakeup(k, 1), ret, s2.sys) &&
        s2 == s.(sys := s2.sys, free := s.free[k := true], owner := s.owner[k := -1],
                 inside := s.inside[k := s.inside[k] - {s.sys.p.current}])
  }

  /** thread_sleep on the condition variable; what follows on waking is lock_acquire. */
  ghost predicate WaitedOn(s: State, c: nat, k: nat, s2: State)
    requires Shape(s) && k < |s.free| && CvQueue(s, c) < |s.sys.waits|
  {
    exists ret :: Next(s.sys, Sleep(CvQueue(s, c)), ret, s2.sys) &&
      s2 == s.(sys := s2.sys, pc := s.pc[s.sys.p.current := Acquiring(k)])
  }

  ghost predicate WokenOn(s: State, c: nat, k: nat, all: int, s2: State)
    requires Shape(s) && k < |s.free| && CvQueue(s, c) < |s.sys.waits|
  {
    if s.free[k] then s2 == s
    else exists ret :: Next(s.sys, Wakeup(CvQueue(s, c), all), ret, s2.sys) && s2 == s.(sys := s2.sys)
  }

  /** Threads that have ended are inside no lock; a new thread starts in its own code. */
  ghost predicate PlainStep(s: State, call: Call, s2: State)
    requires Shape(s)
  {
    && (call.Create? || call.Yield? || call.Exit? || call.Kill?)
    && (exists ret :: Next(s.sys, call, ret, s2.sys))
    && s2.free == s.free && s2.owner == s.owner && |s2.inside| == |s.inside|
    && (forall k: nat | k < |s.inside| :: s2.inside[k] == s.inside[k] * s2.sys.p.live)
    && (forall t | t in s.sys.p.live && t in s2.sys.p.live && t in s.pc :: t in s2.pc && s2.pc[t] == s.pc[t])
    && (forall t | t in s2.sys.p.live && t !in s.sys.p.live :: t in s2.pc && s2.pc[t] == User)
  }

  ghost predicate InUser(s: State)
  {
    s.sys.p.current in s.pc && s.pc[s.sys.p.current] == User
  }

  /** One step. Only a thread inside a lock releases it or waits with it. */
  ghost predicate Step(s: State, op: Op, s2: State)
  {
    && Shape(s) && !s.sys.ended
    && match op
       case Plain(call) => InUser(s) && PlainStep(s, call, s2)
       case Acquire(k) =>
         && k < |s.free| && s.sys.p.current in s.pc && s.pc[s.sys.p.current] in {User, Acquiring(k)}
         && Tried(s, k, s2)
       case Release(k) =>
         k < |s.free| && InUser(s) && s.sys.p.current in s.inside[k] && Released(s, k, s2)
       case CvWait(c, k) =>
         && k < |s.free| && InUser(s) && s.sys.p.current in s.inside[k] && CvQueue(s, c) < |s.sys.waits|
         && exists m :: Released(s, k, m) && Shape(m) && |m.free| == |s.free| && |m.sys.waits| == |s.sys.waits| &&
                        WaitedOn(m, c, k, s2)
       case Signal(c, k) =>
         k < |s.free| && InUser(s) && CvQueue(s, c) < |s.sys.waits| && WokenOn(s, c, k, 0, s2)
       case Broadcast(c, k) =>
         k < |s.free| && InUser(s) && CvQueue(s, c) < |s.sys.waits| && WokenOn(s, c, k, 1, s2)
  }

  // ---- safety

  /**
   At most one thread is inside a lock, and it is the noted owner; nobody is inside a free lock, and nobody
   waits for one; whoever waits is on its way to the lock, and the queue leads to it.
   */
  ghost predicate LockOk(s: State, k: nat)
    requires Shape(s) && k < |s.free|
  {
    && (forall t | t in s.inside[k] :: t in s.sys.p.live && s.owner[k] == t)
    && (s.free[k] ==> s.inside[k] == {} && s.sys.waits[k] == [])
    && (forall t | t in s.sys.waits[k] :: t in s.pc && s.pc[t] == Acquiring(k))
    && Holds(s.sys, k)
  }

  /** The locks are in order, and so are the threads as long as no call has done harm. */
  ghost predicate Inv(s: State)
  {
    && Shape(s) && (!s.sys.ended ==> Partition(s.sys))
    && (forall t | t in s.sys.p.live :: t in s.pc)
    && (forall k: nat | k < |s.free| :: LockOk(s, k))
  }

  /** The wait on condition variable `c` would use a queue that nobody waits in and that leads elsewhere. */
  predicate WaitsAstray(s: State, c: nat, k: nat)
    requires Shape(s) && k < |s.free|
  {
    var q := CvQueue(s, c);
    && (s.sys.p.ready != [] || s.sys.waits[k] != []) && Stale(s.sys, q)
    && !(s.sys.queues[q].head == s.sys.p.current && IsTid(s.sys.queues[q].tail))
  }

  /** The steps that do harm to the threads: locks never do, condition variables and plain calls may. */
  ghost predicate Harm(s: State, op: Op)
    requires Shape(s)
  {
    match op
    case Plain(call) => Harms(s.sys, call)
    case CvWait(c, k) => k < |s.free| && WaitsAstray(s, c, k)
    case Signal(c, k) => k < |s.free| && !s.free[k] && Misled(s.sys, Wakeup(CvQueue(s, c), 0))
    case Broadcast(c, k) => k < |s.free| && !s.free[k] && Misled(s.sys, Wakeup(CvQueue(s, c), 1))
    case _ => false
  }

  lemma MutualExclusion(s: State, k: nat, t: int, u: int)
    requires Inv(s) && k < |s.free| && t in s.inside[k] && u in s.inside[k]
    ensures t == u && !s.free[k]
  {
    assert LockOk(s, k);
  }

  /** The running thread exists and waits nowhere. */
  lemma CurrentPlace(s: Sys)
    requires Partition(s)
    ensures s.p.current in s.p.live && forall j: nat | j < |s.waits| :: s.p.current !in s.waits[j]
    ensures forall j: nat, t | j < |s.waits| && t in s.waits[j] :: t in s.p.live && t != s.p.current && t !in s.p.ready
  {
    forall j: nat, t | j < |s.waits| && t in s.waits[j]
      ensures t in s.p.live && t != s.p.current && t !in s.p.ready
    {
      assert Waits(s, t, j);
    }
  }

  lemma TriedKeeps(s: State, k: nat, s2: State)
    requires Inv(s) && !s.sys.ended && k < |s.free| && Tried(s, k, s2)
    ensures Inv(s2) && !s2.sys.ended
  {
    hide Partition, Spells;
    var t := s.sys.p.current;
    CurrentPlace(s.sys);
    assert LockOk(s, k);
    if !s.free[k] && s.sys.p.ready != [] {
      var ret :| Next(s.sys, Sleep(k), ret, s2.sys);
      WaitersHold(s.sys, k);
      NextKeepsOrder(s.sys, Sleep(k), ret, s2.sys);
      OutsideIsHarm(s.sys, Sleep(k), ret, s2.sys);
      WaitersHold(s2.sys, k);
    }
    forall j: nat | j < |s.free| ensures LockOk(s2, j) {
      assert LockOk(s, j);
      assert t !in s.sys.waits[j];
    }
  }

  lemma ReleasedKeeps(s: State, k: nat, s2: State)
    requires Inv(s) && !s.sys.ended && k < |s.free| && s.sys.p.current in s.inside[k] && Released(s, k, s2)
    ensures Inv(s2) && !s2.sys.ended && s2.sys.p.current == s.sys.p.current && s2.pc == s.pc
    ensures s2.free[k] && |s2.free| == |s.free| && |s2.sys.waits| == |s.sys.waits|
    ensures s2.sys.p.ready == s.sys.p.ready + s.sys.waits[k] && (s.sys.waits[k] == [] ==> s2.sys.p == s.sys.p)
    ensures s.sys.p.current !in s2.inside[k]
    ensures forall q: nat | q < |s.sys.waits| && q != k ::
              s2.sys.waits[q] == s.sys.waits[q] && (Stale(s2.sys, q) <==> Stale(s.sys, q))
    ensures |s2.sys.queues| == |s.sys.queues|
    ensures forall q: nat | q < |s.sys.queues| && q != k :: s2.sys.queues[q] == s.sys.queues[q]
  {
    hide Partition, Spells;
    assert LockOk(s, k);
    var ret :| Next(s.sys, Wakeup(k, 1), ret, s2.sys);
    WakeupMoves(s.sys, s2.sys, k, 1, ret);
    WaitersHold(s.sys, k);
    NotOutside(s.sys, k, 1);
    NextKeepsOrder(s.sys, Wakeup(k, 1), ret, s2.sys);
    forall t ensures t !in s2.inside[k] {
      if t in s.inside[k] { MutualExclusion(s, k, t, s.sys.p.current); }
    }
    forall j: nat | j < |s.free| ensures LockOk(s2, j) {
      assert LockOk(s, j);
    }
  }

  lemma WaitedOnKeeps(s: State, c: nat, k: nat, s2: State)
    requires Inv(s) && !s.sys.ended && k < |s.free| && CvQueue(s, c) < |s.sys.waits| && WaitedOn(s, c, k, s2)
    ensures Inv(s2) && s2.sys.ended == Misled(s.sys, Sleep(CvQueue(s, c)))
  {
    hide Partition, Spells, Misled;
    var t, q := s.sys.p.current, CvQueue(s, c);
    CurrentPlace(s.sys);
    var ret :| Next(s.sys, Sleep(q), ret, s2.sys);
    StepKeepsPartition(s.sys, Sleep(q), ret, s2.sys);
    NextKeepsOrder(s.sys, Sleep(q), ret, s2.sys);
    forall j: nat | j < |s.free| ensures LockOk(s2, j) {
      assert LockOk(s, j);
      assert t !in s.sys.waits[j];
    }
  }

  lemma WokenOnKeeps(s: State, c: nat, k: nat, all: int, s2: State)
    requires Inv(s) && !s.sys.ended && k < |s.free| && CvQueue(s, c) < |s.sys.waits| && WokenOn(s, c, k, all, s2)
    ensures Inv(s2) && s2.sys.ended == (!s.free[k] && Misled(s.sys, Wakeup(CvQueue(s, c), all)))
  {
    hide Partition, Spells, Misled, Chain, Rewoken, Dropped;
    if !s.free[k] {
      var q := CvQueue(s, c);
      var ret :| Next(s.sys, Wakeup(q, all), ret, s2.sys);
      StepKeepsPartition(s.sys, Wakeup(q, all), ret, s2.sys);
      NextKeepsOrder(s.sys, Wakeup(q, all), ret, s2.sys);
      forall j: nat | j < |s.free| ensures LockOk(s2, j) {
        assert LockOk(s, j);
      }
    }
  }

  lemma PlainKeeps(s: State, call: Call, s2: State)
    requires Inv(s) && !s.sys.ended && PlainStep(s, call, s2)
    ensures Inv(s2) && s2.sys.ended == Harms(s.sys, call)
  {
    hide Partition, Spells, Harms;
    var ret :| Next(s.sys, call, ret, s2.sys);
    StepKeepsPartition(s.sys, call, ret, s2.sys);
    NextKeepsOrder(s.sys, call, ret, s2.sys);
    PlainMoves(s.sys, call, ret, s2.sys);
    forall j: nat | j < |s.free| ensures LockOk(s2, j) {
      assert LockOk(s, j);
    }
  }

  /** Plain calls leave the wait queues alone, and those who wait alive. */
  lemma PlainMoves(s: Sys, call: Call, ret: int, s2: Sys)
    requires Partition(s) && Next(s, call, ret, s2) && (call.Create? || call.Yield? || call.Exit? || call.Kill?)
    ensures s2.waits == s.waits && s2.queues == s.queues
    ensures forall j: nat, t | j < |s.waits| && t in s.waits[j] :: t in s.p.live && t in s2.p.live
  {
    hide Partition;
    CurrentPlace(s);
  }

  /** Every step keeps the locks in order, whatever the threads interleave. */
  lemma StepKeepsInv(s: State, op: Op, s2: State)
    requires Inv(s) && Step(s, op, s2)
    ensures Inv(s2) && (s2.sys.ended <==> Harm(s, op))
  {
    hide Inv, PlainStep, Tried, Released, WaitedOn, WokenOn, Misled, Harms;
    match op
    case Plain(call) => PlainKeeps(s, call, s2);
    case Acquire(k) => TriedKeeps(s, k, s2);
    case Release(k) => ReleasedKeeps(s, k, s2);
    case CvWait(c, k) =>
      var m :| Released(s, k, m) && Shape(m) && |m.free| == |s.free| && |m.sys.waits| == |s.sys.waits| &&
               WaitedOn(m, c, k, s2);
      ReleasedKeeps(s, k, m);
      WaitedOnKeeps(m, c, k, s2);
      AstrayIff(s, m, c, k);
    case Signal(c, k) => WokenOnKeeps(s, c, k, 0, s2);
    case Broadcast(c, k) => WokenOnKeeps(s, c, k, 1, s2);
  }

  /** Releasing the lock makes its waiters ready and does nothing to the queue of the condition variable. */
  lemma AstrayIff(s: State, m: State, c: nat, k: nat)
    requires Shape(s) && Shape(m) && k < |s.free| == |m.free| && CvQueue(s, c) < |s.sys.waits| == |m.sys.waits|
    requires |m.sys.queues| == |s.sys.queues| && m.sys.p.current == s.sys.p.current
    requires m.sys.p.ready == s.sys.p.ready + s.sys.waits[k]
    requires m.sys.waits[CvQueue(s, c)] == s.sys.waits[CvQueue(s, c)]
    requires CvQueue(s, c) < |s.sys.queues| ==> m.sys.queues[CvQueue(s, c)] == s.sys.queues[CvQueue(s, c)]
    ensures Misled(m.sys, Sleep(CvQueue(m, c))) <==> WaitsAstray(s, c, k)
  {
  }

  ghost predicate Run(ss: seq<State>, ops: seq<Op>)
  {
    |ss| == |ops| + 1 && forall i: nat | i < |ops| :: Step(ss[i], ops[i], ss[i + 1])
  }

  /** At most one thread is inside lock `k`, and nobody waits for it when it is free. */
  ghost predicate Safe(s: State, k: nat)
    requires Shape(s) && k < |s.free|
  {
    && (forall t, u | t in s.inside[k] && u in s.inside[k] :: t == u)
    && (s.free[k] ==> s.inside[k] == {} && s.sys.waits[k] == [])
  }

  /**
   Over all interleavings: mutual exclusion, and nobody waits for a free lock. Every thread is in one place as well,
   up to the first step that does harm.
   */
  lemma {:induction false} LocksAreSafe(ss: seq<State>, ops: seq<Op>, n: nat)
    requires Run(ss, ops) && n < |ss| && Inv(ss[0])
    ensures Inv(ss[n]) && forall k: nat | k < |ss[n].free| :: Safe(ss[n], k)
    ensures n > 0 ==> InOrder(ss[n - 1].sys) && (InOrder(ss[n].sys) <==> !Harm(ss[n - 1], ops[n - 1]))
    decreases n
  {
    hide Step, Harm, Partition;
    if n > 0 {
      var m := n - 1;
      LocksAreSafe(ss, ops, m);
      StepKeepsInv(ss[m], ops[m], ss[m + 1]);
      StepFromOrder(ss[m], ops[m], ss[m + 1]);
    }
    var s := ss[n];
    forall k: nat | k < |s.free| ensures Safe(s, k) {
      assert LockOk(s, k);
    }
  }

  lemma StepFromOrder(s: State, op: Op, s2: State)
    requires Step(s, op, s2)
    ensures !s.sys.ended
  {
  }

  /** `n` locks, and a condition variable for every further queue, right after thread_init and their creation. */
  function Start(n: nat, queues: seq<Queue>): State
  {
    State(ThreadRuns.Start(queues), seq(n, _ => true), seq(n, _ => -1), seq(n, _ => {}), map[0 := User])
  }

  /** The locks start in order exactly if their memory happened to hold -1 twice. */
  lemma StartIsOkIff(n: nat, queues: seq<Queue>)
    requires n <= |queues|
    ensures Inv(Start(n, queues)) <==> forall k | 0 <= k < n :: Idle(queues[k])
  {
    var s := Start(n, queues);
    StartIsPartition(queues);
    forall k: nat | k < |queues| ensures Holds(s.sys, k) <==> Idle(queues[k]) {
      SpellsNone(queues[k]);
    }
    if Inv(s) {
      forall k | 0 <= k < n ensures Idle(queues[k]) {
        assert LockOk(s, k);
      }
    }
  }

  // ---- what acquiring and releasing do

  /** The locks but `k` are as they were. */
  ghost predicate OtherLocks(s: State, k: nat, s2: State)
    requires Shape(s)
  {
    && |s2.free| == |s.free| == |s2.owner| == |s2.inside|
    && forall j: nat | j < |s.free| && j != k ::
         s2.free[j] == s.free[j] && s2.owner[j] == s.owner[j] && s2.inside[j] == s.inside[j]
  }

  /**
   A try comes out of lock_acquire exactly if the lock is free, and then the caller alone is inside and holds it.
   Otherwise the caller, if another thread can run, goes to the end of the lock's queue, and nothing is taken.
   */
  lemma AcquireOutcome(s: State, k: nat, s2: State)
    requires Inv(s) && Step(s, Acquire(k), s2)
    ensures OtherLocks(s, k, s2) && k < |s2.free|
    ensures var t := s.sys.p.current;
            && t in s2.pc && (s2.pc[t] == User <==> s.free[k]) && (s2.pc[t] != User ==> s2.pc[t] == Acquiring(k))
            && (forall u | u in s.pc && u != t :: u in s2.pc && s2.pc[u] == s.pc[u])
            && (s.free[k] ==> !s2.free[k] && s2.owner[k] == t && s2.inside[k] == {t} && s2.sys == s.sys)
            && (!s.free[k] ==> !s2.free[k] && s2.owner[k] == s.owner[k] && s2.inside[k] == s.inside[k])
            && (!s.free[k] && s.sys.p.ready != [] ==>
                  && |s2.sys.waits| == |s.sys.waits| && s2.sys.waits[k] == s.sys.waits[k] + [t]
                  && s2.sys.p.current == s.sys.p.ready[0] && s2.sys.p.ready == s.sys.p.ready[1..])
            && (!s.free[k] && s.sys.p.ready == [] ==> s2.sys == s.sys)
  {
    hide Partition, Spells;
    assert LockOk(s, k);
    WaitersHold(s.sys, k);
    if !s.free[k] && s.sys.p.ready != [] {
      var ret :| Next(s.sys, Sleep(k), ret, s2.sys);
      OutsideIsHarm(s.sys, Sleep(k), ret, s2.sys);
    }
  }

  /** Releasing empties the lock and its queue: all waiters are ready to try again, in their order. */
  lemma ReleaseOutcome(s: State, k: nat, s2: State)
    requires Inv(s) && Step(s, Release(k), s2)
    ensures OtherLocks(s, k, s2) && k < |s2.free| && s2.free[k] && s2.inside[k] == {} && s2.pc == s.pc
    ensures |s2.sys.waits| == |s.sys.waits| && s2.sys.waits[k] == []
    ensures s2.sys.p.current == s.sys.p.current && s2.sys.p.ready == s.sys.p.ready + s.sys.waits[k]
    ensures forall t | t in s.sys.waits[k] :: t in s2.pc && s2.pc[t] == Acquiring(k)
  {
    hide Partition, Spells;
    assert LockOk(s, k);
    ReleasedKeeps(s, k, s2);
    assert LockOk(s2, k);
  }

  /** Whether the running thread may make a call: nothing but another try if it is in lock_acquire. */
  ghost predicate May(s: State, op: Op)
    requires Inv(s) && !s.sys.ended
  {
    var t := s.sys.p.current;
    CurrentPlace(s.sys);
    match op
    case Plain(call) => (call.Create? || call.Yield? || call.Exit? || call.Kill?) && s.pc[t] == User
    case Acquire(k) => k < |s.free| && (s.pc[t] == User || s.pc[t] == Acquiring(k))
    case Release(k) => k < |s.free| && s.pc[t] == User && t in s.inside[k]
    case CvWait(c, k) => k < |s.free| && s.pc[t] == User && t in s.inside[k] && CvQueue(s, c) < |s.sys.waits|
    case Signal(c, k) => k < |s.free| && s.pc[t] == User && CvQueue(s, c) < |s.sys.waits|
    case Broadcast(c, k) => k < |s.free| && s.pc[t] == User && CvQueue(s, c) < |s.sys.waits|
  }

  /** The calls that may be made are just the steps; in particular whoever sleeps for a lock tries again. */
  lemma EveryCallMayBeMade(s: State, op: Op)
    requires Inv(s) && !s.sys.ended
    ensures May(s, op) <==> exists s2 :: Step(s, op, s2)
  {
    hide Next, LockOk, Partition, Spells;
    CurrentPlace(s.sys);
    if May(s, op) {
      match op
      case Plain(call) => PlainExists(s, call);
      case Acquire(k) => TryExists(s, k);
      case Release(k) => ReleaseExists(s, k);
      case CvWait(c, k) => WaitExists(s, c, k);
      case Signal(c, k) => WakeExists(s, op, c, k, 0);
      case Broadcast(c, k) => WakeExists(s, op, c, k, 1);
    }
  }

  lemma PlainExists(s: State, call: Call)
    requires Inv(s) && !s.sys.ended && May(s, Plain(call))
    ensures exists s2 :: Step(s, Plain(call), s2)
  {
    hide Next, LockOk, Partition, Spells;
    CurrentPlace(s.sys);
    EveryCallIsAStep(s.sys, call);
    var ret, sys2 :| Next(s.sys, call, ret, sys2);
    var born := map t | t in sys2.p.live && t !in s.sys.p.live :: User;
    var s2 := s.(sys := sys2, pc := s.pc + born,
                 inside := seq(|s.inside|, k requires 0 <= k < |s.inside| => s.inside[k] * sys2.p.live));
    assert Next(s.sys, call, ret, s2.sys);
    assert Step(s, Plain(call), s2);
  }

  lemma TryExists(s: State, k: nat)
    requires Inv(s) && !s.sys.ended && May(s, Acquire(k))
    ensures exists s2 :: Step(s, Acquire(k), s2)
  {
    hide Next, LockOk, Partition, Spells;
    CurrentPlace(s.sys);
    var t := s.sys.p.current;
    if s.free[k] {
      assert Step(s, Acquire(k), s.(free := s.free[k := false], owner := s.owner[k := t],
                                    inside := s.inside[k := s.inside[k] + {t}], pc := s.pc[t := User]));
    } else if s.sys.p.ready == [] {
      assert Step(s, Acquire(k), s.(pc := s.pc[t := Acquiring(k)]));
    } else {
      EveryCallIsAStep(s.sys, Sleep(k));
      var ret, sys2 :| Next(s.sys, Sleep(k), ret, sys2);
      var s2 := s.(sys := sys2, pc := s.pc[t := Acquiring(k)]);
      assert Next(s.sys, Sleep(k), ret, s2.sys);
      assert Step(s, Acquire(k), s2);
    }
  }

  lemma ReleaseExists(s: State, k: nat)
    requires Inv(s) && !s.sys.ended && May(s, Release(k))
    ensures exists s2 :: Step(s, Release(k), s2) && Released(s, k, s2)
  {
    hide Next, Partition, Spells;
    assert LockOk(s, k);
    EveryCallIsAStep(s.sys, Wakeup(k, 1));
    var ret, sys2 :| Next(s.sys, Wakeup(k, 1), ret, sys2);
    var s2 := s.(sys := sys2, free := s.free[k := true], owner := s.owner[k := -1],
                 inside := s.inside[k := s.inside[k] - {s.sys.p.current}]);
    assert Next(s.sys, Wakeup(k, 1), ret, s2.sys);
    assert Step(s, Release(k), s2);
  }

  lemma WaitExists(s: State, c: nat, k: nat)
    requires Inv(s) && !s.sys.ended && May(s, CvWait(c, k))
    ensures exists s2 :: Step(s, CvWait(c, k), s2)
  {
    hide Next, Inv, Partition, Spells, Released;
    InvShape(s);
    ReleaseExists(s, k);
    var m :| Step(s, Release(k), m) && Released(s, k, m);
    ReleasedKeeps(s, k, m);
    InvShape(m);
    InvOrder(m);
    var q := CvQueue(m, c);
    EveryCallIsAStep(m.sys, Sleep(q));
    var ret, sys2 :| Next(m.sys, Sleep(q), ret, sys2);
    var s2 := m.(sys := sys2, pc := m.pc[m.sys.p.current := Acquiring(k)]);
    assert Next(m.sys, Sleep(q), ret, s2.sys);
    assert WaitedOn(m, c, k, s2);
    assert Step(s, CvWait(c, k), s2);
  }

  lemma InvOrder(s: State)
    requires Inv(s) && !s.sys.ended
    ensures InOrder(s.sys)
  {
  }

  lemma WakeExists(s: State, op: Op, c: nat, k: nat, all: int)
    requires Inv(s) && !s.sys.ended && May(s, op)
    requires (op == Signal(c, k) && all == 0) || (op == Broadcast(c, k) && all == 1)
    ensures exists s2 :: Step(s, op, s2)
  {
    hide Next, LockOk, Partition, Spells;
    CurrentPlace(s.sys);
    if s.free[k] {
      assert Step(s, op, s);
    } else {
      EveryCallIsAStep(s.sys, Wakeup(CvQueue(s, c), all));
      var ret, sys2 :| Next(s.sys, Wakeup(CvQueue(s, c), all), ret, sys2);
      var s2 := s.(sys := sys2);
      assert Next(s.sys, Wakeup(CvQueue(s, c), all), ret, s2.sys);
      assert Step(s, op, s2);
    }
  }

  /** Thread `t` comes out of lock_acquire. */
  ghost predicate ComesOut(s: State, op: Op, s2: State, t: int, k: nat)
  {
    op == Acquire(k) && s.sys.p.current == t && t in s2.pc && s2.pc[t] == User
  }

  /** Thread `t` gives the lock up: it releases it, waits with it, or is gone. */
  ghost predicate GivesUp(s: State, op: Op, s2: State, t: int, k: nat)
  {
    || (s.sys.p.current == t && (op == Release(k) || (op.CvWait? && op.k == k)))
    || t !in s2.sys.p.live
  }

  /** After a step those are inside who came out of lock_acquire, or were inside and did not give the lock up. */
  lemma InsideStep(s: State, op: Op, s2: State, t: int, k: nat)
    requires Inv(s) && Step(s, op, s2) && k < |s.free|
    ensures |s2.free| == |s2.inside| == |s.free|
    ensures t in s2.inside[k] <==>
            ComesOut(s, op, s2, t, k) || (t in s.inside[k] && !GivesUp(s, op, s2, t, k))
  {
    hide Partition, Spells, Tried, Released, WaitedOn, WokenOn, PlainStep;
    assert LockOk(s, k);
    CurrentPlace(s.sys);
    match op
    case Plain(call) => InsidePlain(s, call, s2, t, k);
    case Acquire(j) =>
      AcquireOutcome(s, j, s2);
      SleepKeepsLive(s, j, s2);
    case Release(j) =>
      ReleaseOutcome(s, j, s2);
      ReleaseKeepsLive(s, j, s2);
    case CvWait(c, j) => InsideWait(s, c, j, s2, t, k);
    case Signal(c, j) => WokenKeepsInside(s, c, j, 0, s2);
    case Broadcast(c, j) => WokenKeepsInside(s, c, j, 1, s2);
  }

  lemma InsidePlain(s: State, call: Call, s2: State, t: int, k: nat)
    requires Inv(s) && PlainStep(s, call, s2) && k < |s.free|
    ensures |s2.free| == |s2.inside| == |s.free| && (t in s2.inside[k] <==> t in s.inside[k] && t in s2.sys.p.live)
  {
  }

  lemma SleepKeepsLive(s: State, k: nat, s2: State)
    requires Shape(s) && k < |s.free| && Tried(s, k, s2)
    ensures s2.sys.p.live == s.sys.p.live
  {
  }

  lemma ReleaseKeepsLive(s: State, k: nat, s2: State)
    requires Shape(s) && k < |s.free| && Released(s, k, s2)
    ensures s2.sys.p.live == s.sys.p.live
  {
    hide Chain, Rewoken, Dropped;
  }

  lemma WokenKeepsInside(s: State, c: nat, k: nat, all: int, s2: State)
    requires Shape(s) && k < |s.free| && CvQueue(s, c) < |s.sys.waits| && WokenOn(s, c, k, all, s2)
    ensures s2.inside == s.inside && s2.free == s.free && s2.sys.p.live == s.sys.p.live
  {
    hide Chain, Rewoken, Dropped;
  }

  lemma InsideWait(s: State, c: nat, j: nat, s2: State, t: int, k: nat)
    requires Inv(s) && Step(s, CvWait(c, j), s2) && k < |s.free|
    ensures |s2.free| == |s2.inside| == |s.free| && s2.sys.p.live == s.sys.p.live
    ensures t in s2.inside[k] <==> t in s.inside[k] && k != j
  {
    hide Partition, Spells, Released, WaitedOn;
    var m :| Released(s, j, m) && Shape(m) && |m.free| == |s.free| && |m.sys.waits| == |s.sys.waits| &&
             WaitedOn(m, c, j, s2);
    assert Step(s, Release(j), m);
    ReleaseOutcome(s, j, m);
    ReleaseKeepsLive(s, j, m);
    WaitKeepsLocks(m, c, j, s2);
  }

  /** From step `m` on, up to step `n`, thread `t` has not given the lock up. */
  ghost predicate Holding(ss: seq<State>, ops: seq<Op>, m: nat, n: nat, t: int, k: nat)
    requires m < n <= |ops| < |ss|
  {
    && ComesOut(ss[m], ops[m], ss[m + 1], t, k)
    && forall l: nat | m < l < n :: !GivesUp(ss[l], ops[l], ss[l + 1], t, k)
  }

  /** Inside a lock are just those who came out of lock_acquire and have not given the lock up since. */
  lemma {:induction false} InsideIff(ss: seq<State>, ops: seq<Op>, n: nat, t: int, k: nat)
    requires Run(ss, ops) && n < |ss| && Inv(ss[0]) && k < |ss[0].free| && t !in ss[0].inside[k]
    ensures |ss[n].free| == |ss[n].inside| == |ss[0].free|
    ensures t in ss[n].inside[k] <==> exists m: nat :: m < n && Holding(ss, ops, m, n, t, k)
    decreases n
  {
    hide Inv, Step, ComesOut, GivesUp;
    InvShape(ss[0]);
    if n > 0 {
      var j := n - 1;
      InsideIff(ss, ops, j, t, k);
      LocksAreSafe(ss, ops, j);
      InsideStep(ss[j], ops[j], ss[n], t, k);
      assert ComesOut(ss[j], ops[j], ss[n], t, k) ==> Holding(ss, ops, j, n, t, k);
      forall m: nat | m < j
        ensures Holding(ss, ops, m, n, t, k) <==>
                Holding(ss, ops, m, j, t, k) && !GivesUp(ss[j], ops[j], ss[n], t, k) {}
    }
  }

  lemma InvShape(s: State)
    requires Inv(s)
    ensures Shape(s)
  {
  }

  /** Mutual exclusion, told by the calls alone: two threads never hold a lock at once, nor is it free meanwhile. */
  lemma OneHolder(ss: seq<State>, ops: seq<Op>, n: nat, t: int, u: int, k: nat, l: nat, m: nat)
    requires Run(ss, ops) && n < |ss| && Inv(ss[0]) && k < |ss[0].free| && ss[0].inside[k] == {}
    requires l < n && m < n && Holding(ss, ops, l, n, t, k) && Holding(ss, ops, m, n, u, k)
    ensures |ss[n].free| == |ss[0].free| && t == u && !ss[n].free[k]
  {
    hide Step, Holding, Inv;
    InsideIff(ss, ops, n, t, k);
    InsideIff(ss, ops, n, u, k);
    LocksAreSafe(ss, ops, n);
    MutualExclusion(ss[n], k, t, u);
  }

  // ---- no lost wake-ups

  /**
   cv_wait releases the lock and enqueues the caller in one step: whoever gets the lock next finds it at the
   end of the queue. Only when no other thread could run does the caller go on instead.
   */
  lemma WaitHasNoGap(s: State, c: nat, k: nat, s2: State)
    requires Inv(s) && Step(s, CvWait(c, k), s2)
    ensures s2.free[k] && s.sys.p.current !in s2.inside[k]
    ensures (s.sys.p.ready != [] || s.sys.waits[k] != []) && CvQueue(s, c) < |s.sys.queues| &&
            CanEnqueue(s.sys.queues[CvQueue(s, c)]) ==>
              s2.sys.waits[CvQueue(s, c)] == s.sys.waits[CvQueue(s, c)] + [s.sys.p.current]
    ensures s.sys.p.ready == [] && s.sys.waits[k] == [] ==> s2.sys.p == s.sys.p
    ensures s.sys.p.current in s2.pc && s2.pc[s.sys.p.current] == Acquiring(k)
  {
    hide Released, WaitedOn, Inv;
    var m :| Released(s, k, m) && Shape(m) && |m.free| == |s.free| && |m.sys.waits| == |s.sys.waits| &&
             WaitedOn(m, c, k, s2);
    ReleasedKeeps(s, k, m);
    SameInside(s, k, m);
    if m.sys.p.ready == [] || (CvQueue(m, c) < |m.sys.queues| && CanEnqueue(m.sys.queues[CvQueue(m, c)])) {
      WaitEnqueues(m, c, k, s2);
    }
    WaitKeepsLocks(m, c, k, s2);
  }

  lemma SameInside(s: State, k: nat, m: State)
    requires Shape(s) && k < |s.free| && Released(s, k, m)
    ensures |m.inside| == |s.inside|
  {
  }

  lemma WaitKeepsLocks(m: State, c: nat, k: nat, s2: State)
    requires Shape(m) && k < |m.free| && CvQueue(m, c) < |m.sys.waits| && WaitedOn(m, c, k, s2)
    ensures s2.free == m.free && s2.inside == m.inside && |s2.sys.waits| == |m.sys.waits|
    ensures s2.sys.p.live == m.sys.p.live && s2.pc == m.pc[m.sys.p.current := Acquiring(k)]
  {
  }

  lemma WaitEnqueues(m: State, c: nat, k: nat, s2: State)
    requires Shape(m) && k < |m.free| && CvQueue(m, c) < |m.sys.waits| && WaitedOn(m, c, k, s2)
    requires m.sys.p.ready == [] || (CvQueue(m, c) < |m.sys.queues| && CanEnqueue(m.sys.queues[CvQueue(m, c)]))
    ensures |s2.sys.waits| == |m.sys.waits|
    ensures if m.sys.p.ready == [] then s2.sys.p == m.sys.p
            else s2.sys.waits[CvQueue(m, c)] == m.sys.waits[CvQueue(m, c)] + [m.sys.p.current]
  {
  }

  /** The step wakes waiters of condition variable `c`, if it has any: the lock is held, as cv_signal asks. */
  ghost predicate Wakes(s: State, op: Op, c: nat)
  {
    (op.Signal? || op.Broadcast?) && op.c == c && op.k < |s.free| && !s.free[op.k]
  }

  /** The waiters of condition variable `c`, first to sleep first. */
  ghost function Waiters(s: State, c: nat): seq<int>
    requires CvQueue(s, c) < |s.sys.waits|
  {
    s.sys.waits[CvQueue(s, c)]
  }

  /** cv_wait appends to one queue and empties that of a lock. */
  lemma WaitAppends(s: State, c2: nat, k: nat, s2: State, c: nat)
    requires Step(s, CvWait(c2, k), s2) && CvQueue(s, c) < |s.sys.waits|
    ensures CvQueue(s2, c) == CvQueue(s, c) < |s2.sys.waits| && Waiters(s, c) <= Waiters(s2, c)
  {
    hide Released, WaitedOn;
    var m :| Released(s, k, m) && Shape(m) && |m.free| == |s.free| && |m.sys.waits| == |s.sys.waits| &&
             WaitedOn(m, c2, k, s2);
    ReleaseElsewhere(s, k, m, c);
    SleepAppends(m, c2, k, s2, c);
  }

  lemma ReleaseElsewhere(s: State, k: nat, m: State, c: nat)
    requires Shape(s) && k < |s.free| && CvQueue(s, c) < |s.sys.waits| && Released(s, k, m)
    ensures CvQueue(m, c) == CvQueue(s, c) < |m.sys.waits| && Waiters(s, c) == Waiters(m, c)
  {
  }

  lemma SleepAppends(m: State, c2: nat, k: nat, s2: State, c: nat)
    requires Shape(m) && k < |m.free| && CvQueue(m, c2) < |m.sys.waits| && WaitedOn(m, c2, k, s2)
    requires CvQueue(m, c) < |m.sys.waits|
    ensures CvQueue(s2, c) == CvQueue(m, c) < |s2.sys.waits| && Waiters(m, c) <= Waiters(s2, c)
  {
  }

  /** Steps that do not wake the waiters of a condition variable leave them waiting, in their order. */
  lemma WaitersStay(s: State, op: Op, s2: State, c: nat)
    requires Step(s, op, s2) && !Wakes(s, op, c) && CvQueue(s, c) < |s.sys.waits|
    ensures CvQueue(s2, c) == CvQueue(s, c) < |s2.sys.waits| && Waiters(s, c) <= Waiters(s2, c)
  {
    match op
    case CvWait(c2, k) => WaitAppends(s, c2, k, s2, c);
    case _ =>
  }

  /** A signal makes the thread that has waited longest ready, a broadcast all of them; if there are any it does no harm. */
  lemma WakingStep(s: State, op: Op, s2: State, c: nat)
    requires Inv(s) && Step(s, op, s2) && Wakes(s, op, c) && CvQueue(s, c) < |s.sys.waits|
    ensures CvQueue(s2, c) == CvQueue(s, c) < |s2.sys.waits|
    ensures var w := Waiters(s, c);
            var woken := if op.Broadcast? then w else w[..if w == [] then 0 else 1];
            && w == woken + Waiters(s2, c)
            && (w != [] ==> s2.sys.p.ready == s.sys.p.ready + woken && !Harm(s, op))
  {
    hide Partition, Spells, Chain, Rewoken, Dropped, LockOk;
    var q, all := CvQueue(s, c), if op.Broadcast? then 1 else 0;
    var ret :| Next(s.sys, Wakeup(q, all), ret, s2.sys);
    WaitersHold(s.sys, q);
    if Waiters(s, c) != [] {
      NotOutside(s.sys, q, all);
      WakeupMoves(s.sys, s2.sys, q, all, ret);
    }
  }

  /** A signal wakes the first waiter and a broadcast all, but only while the lock is taken, whoever holds it. */
  lemma SignalOutcome(s: State, op: Op, s2: State, c: nat, k: nat)
    requires Inv(s) && Step(s, op, s2) && (op == Signal(c, k) || op == Broadcast(c, k))
    ensures k < |s.free| && CvQueue(s, c) < |s.sys.waits| && (s.free[k] ==> s2 == s)
    ensures s2.free == s.free && s2.owner == s.owner && s2.inside == s.inside && s2.pc == s.pc
    ensures !s.free[k] && Waiters(s, c) != [] ==>
              var woken := if op.Signal? then [Waiters(s, c)[0]] else Waiters(s, c);
              CvQueue(s2, c) < |s2.sys.waits| &&
              Waiters(s, c) == woken + Waiters(s2, c) && s2.sys.p.ready == s.sys.p.ready + woken
  {
    hide Partition, Spells, Chain, Rewoken, Dropped, LockOk;
    if !s.free[k] && Waiters(s, c) != [] {
      WakingStep(s, op, s2, c);
      assert Waiters(s, c)[..1] == [Waiters(s, c)[0]];
    }
  }

  /** How many of the first `n` steps are signals that wake a waiter of `c`. */
  ghost function Signals(ss: seq<State>, ops: seq<Op>, n: nat, c: nat): nat
    requires n <= |ops| < |ss|
  {
    if n == 0 then 0
    else Signals(ss, ops, n - 1, c) + if Wakes(ss[n - 1], ops[n - 1], c) && ops[n - 1].Signal? then 1 else 0
  }

  ghost predicate NoBroadcast(ss: seq<State>, ops: seq<Op>, n: nat, c: nat)
    requires n <= |ops| < |ss|
  {
    forall m: nat | m < n :: !(Wakes(ss[m], ops[m], c) && ops[m].Broadcast?)
  }

  /** Before any broadcast the waiters are those of the beginning but for one for every signal, then later ones. */
  lemma {:induction false} WaitsUntilWoken(ss: seq<State>, ops: seq<Op>, n: nat, c: nat)
    requires Run(ss, ops) && n < |ss| && Inv(ss[0]) && CvQueue(ss[0], c) < |ss[0].sys.waits|
    requires NoBroadcast(ss, ops, n, c) && Signals(ss, ops, n, c) <= |Waiters(ss[0], c)|
    ensures CvQueue(ss[n], c) == CvQueue(ss[0], c) < |ss[n].sys.waits|
    ensures Waiters(ss[0], c)[Signals(ss, ops, n, c)..] <= Waiters(ss[n], c)
    decreases n
  {
    hide Step, Wakes, Waiters, Inv, Harm;
    if n > 0 {
      var m := n - 1;
      WaitsUntilWoken(ss, ops, m, c);
      LocksAreSafe(ss, ops, m);
      if Wakes(ss[m], ops[m], c) {
        assert ops[m].Signal? by { IsWaking(ss[m], ops[m], c); }
        WakingStep(ss[m], ops[m], ss[n], c);
      } else {
        WaitersStay(ss[m], ops[m], ss[n], c);
      }
    }
  }

  lemma IsWaking(s: State, op: Op, c: nat)
    requires Wakes(s, op, c)
    ensures op.Signal? || op.Broadcast?
  {
  }

  /** Step `n` is the one that wakes position `i` of the queue: the (i+1)st signal, or the first broadcast before it. */
  ghost predicate WokenAt(ss: seq<State>, ops: seq<Op>, c: nat, i: nat, n: nat)
    requires |ss| == |ops| + 1
  {
    && n < |ops| && Wakes(ss[n], ops[n], c) && NoBroadcast(ss, ops, n, c)
    && if ops[n].Broadcast? then Signals(ss, ops, n, c) <= i else Signals(ss, ops, n, c) == i
  }

  /**
   The waiter at position `i` is made ready by the (i+1)st signal or by the first broadcast, whichever comes first,
   and by no earlier step, whatever the threads interleave.
   */
  lemma WokenInTurn(ss: seq<State>, ops: seq<Op>, c: nat, i: nat, n: nat)
    requires Run(ss, ops) && Inv(ss[0]) && CvQueue(ss[0], c) < |ss[0].sys.waits|
    requires i < |Waiters(ss[0], c)| && WokenAt(ss, ops, c, i, n)
    ensures var t := Waiters(ss[0], c)[i];
            && t in ss[n + 1].sys.p.ready && Awake(ss[n + 1], t)
            && forall m: nat | m <= n :: Waits(ss[m].sys, t, CvQueue(ss[0], c)) && t !in ss[m].sys.p.ready
  {
    hide Step, Inv, InOrder, Harm;
    var t := Waiters(ss[0], c)[i];
    forall m: nat | m <= n ensures Waits(ss[m].sys, t, CvQueue(ss[0], c)) && t !in ss[m].sys.p.ready {
      SignalsGrow(ss, ops, m, n, c);
      WaitsUntilWoken(ss, ops, m, c);
      LocksAreSafe(ss, ops, m + 1);
      var s := Signals(ss, ops, m, c);
      assert t == Waiters(ss[0], c)[s..][i - s] == Waiters(ss[m], c)[i - s];
      WaitingIsNotReady(ss[m], t, CvQueue(ss[0], c));
    }
    WaitsUntilWoken(ss, ops, n, c);
    LocksAreSafe(ss, ops, n);
    assert t == Waiters(ss[0], c)[Signals(ss, ops, n, c)..][i - Signals(ss, ops, n, c)];
    WakingStep(ss[n], ops[n], ss[n + 1], c);
    LocksAreSafe(ss, ops, n + 1);
    ReadyIsAwake(ss[n + 1], t);
  }

  ghost predicate Awake(s: State, t: int)
  {
    forall k: nat :: !Waits(s.sys, t, k)
  }

  lemma ReadyIsAwake(s: State, t: int)
    requires InOrder(s.sys) && t in s.sys.p.ready
    ensures Awake(s, t)
  {
  }

  lemma WaitingIsNotReady(s: State, t: int, k: nat)
    requires InOrder(s.sys) && Waits(s.sys, t, k)
    ensures t !in s.sys.p.ready
  {
  }

  lemma {:induction false} SignalsGrow(ss: seq<State>, ops: seq<Op>, m: nat, n: nat, c: nat)
    requires m <= n <= |ops| < |ss|
    ensures Signals(ss, ops, m, c) <= Signals(ss, ops, n, c)
    ensures m < n && Wakes(ss[m], ops[m], c) && ops[m].Signal? ==> Signals(ss, ops, m, c) < Signals(ss, ops, n, c)
    decreases n
  {
    if m < n {
      SignalsGrow(ss, ops, m, n - 1, c);
    }
  }

  ghost predicate Precedes(q: seq<int>, t: int, u: int)
  {
    exists a, b :: 0 <= a < b < |q| && q[a] == t && q[b] == u
  }

  /** Waiters become ready in the order in which they slept, also when one broadcast wakes them both. */
  lemma WokenInOrder(ss: seq<State>, ops: seq<Op>, c: nat, i: nat, j: nat, m: nat, n: nat)
    requires Run(ss, ops) && Inv(ss[0]) && CvQueue(ss[0], c) < |ss[0].sys.waits|
    requires i < j < |Waiters(ss[0], c)| && WokenAt(ss, ops, c, i, m) && WokenAt(ss, ops, c, j, n)
    ensures m <= n
    ensures m == n ==> Precedes(ss[n + 1].sys.p.ready, Waiters(ss[0], c)[i], Waiters(ss[0], c)[j])
  {
    hide Step, Inv, Wakes;
    IsWaking(ss[n], ops[n], c);
    if n < m {
      SignalsGrow(ss, ops, n, m, c);
    }
    if m == n {
      var s, q, w := Signals(ss, ops, n, c), ss[n].sys.p.ready, Waiters(ss[0], c);
      WaitsUntilWoken(ss, ops, n, c);
      LocksAreSafe(ss, ops, n);
      WakingStep(ss[n], ops[n], ss[n + 1], c);
      assert w[i] == w[s..][i - s] == Waiters(ss[n], c)[i - s] && w[j] == w[s..][j - s] == Waiters(ss[n], c)[j - s];
      var r := ss[n + 1].sys.p.ready;
      assert r[|q| + i - s] == w[i] && r[|q| + j - s] == w[j];
    }
  }

  /** Whoever is woken, everybody who waited longer has been woken by then. */
  lemma LongerWaitersFirst(ss: seq<State>, ops: seq<Op>, c: nat, i: nat, j: nat, n: nat)
    requires |ss| == |ops| + 1 && i <= j && WokenAt(ss, ops, c, j, n)
    ensures exists m: nat :: m <= n && WokenAt(ss, ops, c, i, m)
  {
    if Signals(ss, ops, n, c) <= i {
      assert WokenAt(ss, ops, c, i, n);
    } else {
      var m := SignalNumber(ss, ops, n, c, i);
      assert WokenAt(ss, ops, c, i, m);
    }
  }

  /** The signal before which there were `i`. */
  ghost function SignalNumber(ss: seq<State>, ops: seq<Op>, n: nat, c: nat, i: nat): (m: nat)
    requires n <= |ops| < |ss| && i < Signals(ss, ops, n, c)
    ensures m < n && Wakes(ss[m], ops[m], c) && ops[m].Signal? && Signals(ss, ops, m, c) == i
  {
    if Signals(ss, ops, n - 1, c) > i then SignalNumber(ss, ops, n - 1, c, i) else n - 1
  }
}
