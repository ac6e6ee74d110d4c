/**
 Runs of the thread library: any interleaving of its calls, preemption being a yield to ANY. Every thread id
 is in exactly one place, and a ready thread is not passed over, up to the first call that does harm: which calls do
 is told from the state before them.
 */
module ThreadRuns {
  import opened Sequences
  import opened ReadyLists
  import opened WaitLists
  import opened ThreadSteps

  /**
   The state of the library: for every wait queue the threads that sleep in it, and its memory. The exit array is
   settled from the first clean-up on. A run has ended with the first call that does harm.
   */
  datatype Sys = Sys(p: Place, waits: seq<seq<int>>, queues: seq<Queue>, settled: bool, ended: bool)

  /** A call of the running thread and what it returns. */
  datatype Call =
    | Create(memory: bool)
    | Yield(want: int)
    | Exit
    | Kill(tid: int)
    | Sleep(k: nat)
    | Wakeup(k: nat, all: int)

  // ---- which calls do harm

  /** An exit that finds another thread to run, and so cleans up. */
  predicate Leaves(s: Sys, call: Call)
  {
    call.Exit? && s.p.ready != []
  }

  /** The first such exit finds thread 0 ready, with a successor. */
  ghost predicate Cuts(s: Sys, call: Call)
  {
    Leaves(s, call) && !s.settled && !ZeroHarmless(s.p.ready[1..])
  }

  /** An id that passes the checks of thread_kill but is none of the thread table. */
  predicate KillsOutside(call: Call)
  {
    call.Kill? && ((-7 <= call.tid < 0 && call.tid != THREAD_SELF) || call.tid == THREAD_MAX_THREADS)
  }

  /** Nobody waits in the queue, but the code does not take it for an empty one. */
  predicate Stale(s: Sys, k: nat)
  {
    k < |s.waits| && k < |s.queues| && s.waits[k] == [] && !Idle(s.queues[k])
  }

  /** The argument of thread_wakeup asks for threads to be woken. */
  predicate AsksToWake(all: int)
  {
    all == 0 || all == 1
  }

  /** Such a queue is used, and does not happen to lead to the caller, or just to the last threads that are ready. */
  ghost predicate Misled(s: Sys, call: Call)
  {
    match call
    case Sleep(k) => s.p.ready != [] && Stale(s, k) && !(s.queues[k].head == s.p.current && IsTid(s.queues[k].tail))
    case Wakeup(k, all) => AsksToWake(all) && Stale(s, k) && !exists c :: Chain(s.queues[k], all, c) && TailAgain(s.p.ready, c)
    case _ => false
  }

  ghost predicate Harms(s: Sys, call: Call)
  {
    Cuts(s, call) || Misled(s, call) || KillsOutside(call)
  }

  /** The call reads or writes outside its arrays, or does not come back. */
  ghost predicate Outside(s: Sys, call: Call)
  {
    match call
    case Sleep(k) => k < |s.queues| && s.p.ready != [] && !CanEnqueue(s.queues[k])
    case Wakeup(k, all) => k < |s.queues| && AsksToWake(all) && !Idle(s.queues[k]) && !exists c :: Chain(s.queues[k], all, c)
    case _ => KillsOutside(call)
  }

  /** One call. */
  ghost predicate Next(s: Sys, call: Call, ret: int, s2: Sys)
  {
    !s.ended &&
    if Outside(s, call) then s2 == s.(ended := true)
    else
      match call
      case Create(memory) => s2 == s.(p := s2.p) && Created(s.p, s2.p, memory, ret)
      case Yield(want) => s2 == s.(p := s2.p) && Yielded(s.p, s2.p, want, ret)
      case Exit =>
        && s2 == s.(p := s2.p, settled := s.settled || Leaves(s, call), ended := Cuts(s, call))
        && Exited(s.p, s.settled, s2.p, ret)
      case Kill(tid) => s2 == s.(p := s2.p) && Killed(s.p, s2.p, tid, ret)
      case Sleep(k) =>
        && k < |s.waits| == |s.queues| == |s2.waits| && Slept(s.p, s.waits[k], s2.p, s2.waits[k], ret)
        && s2 == s.(p := s2.p, waits := s.waits[k := s2.waits[k]],
                    queues := s.queues[k := if s.p.ready == [] then s.queues[k] else Enqueued(s.queues[k], s.p.current)],
                    ended := Misled(s, call))
      case Wakeup(k, all) =>
        && k < |s.waits| == |s.queues| == |s2.queues| && WokeChain(s.p, s.queues[k], s2.p, s2.queues[k], all, ret)
        && s2 == s.(p := s2.p, waits := s.waits[k := if AsksToWake(all) then Left(s.waits[k], all) else s.waits[k]],
                    queues := s.queues[k := s2.queues[k]], ended := Misled(s, call))
  }

  // ---- every thread in one place

  ghost predicate Waits(s: Sys, t: int, k: nat)
  {
    k < |s.waits| && t in s.waits[k]
  }

  /** The queue leads along the threads that wait in it. */
  ghost predicate Holds(s: Sys, k: nat)
  {
    k < |s.waits| && k < |s.queues| && Spells(s.queues[k], s.waits[k])
  }

  /** Thread `t` runs, is ready or waits in a queue that leads to it. */
  ghost predicate HasPlace(s: Sys, t: int)
  {
    t == s.p.current || t in s.p.ready || exists k: nat :: Waits(s, t, k) && Holds(s, k)
  }

  /** Running, ready and waiting threads exist, are all different, and each waits in one queue. */
  ghost predicate Exclusive(s: Sys)
  {
    && |s.queues| == |s.waits|
    && IsTid(s.p.current) && Distinct(s.p.ready, THREAD_MAX_THREADS) && s.p.current !in s.p.ready
    && s.p.current in s.p.live && (forall t | t in s.p.ready :: t in s.p.live)
    && (forall k: nat | k < |s.waits| :: Distinct(s.waits[k], THREAD_MAX_THREADS))
    && (forall t, k: nat | Waits(s, t, k) :: t != s.p.current && t !in s.p.ready && t in s.p.live)
    && (forall t, k: nat, l: nat | Waits(s, t, k) && Waits(s, t, l) :: k == l)
  }

  /** Every thread is in exactly one place, and nothing leads on from the threads that are not ready. */
  ghost predicate Partition(s: Sys)
  {
    Exclusive(s) && s.p.loose == {} && forall t :: t in s.p.live ==> HasPlace(s, t)
  }

  /** A queue that somebody waits in leads along its waiters. */
  lemma WaitersHold(s: Sys, k: nat)
    requires Partition(s) && k < |s.waits|
    ensures k < |s.queues| && (s.waits[k] != [] ==> Holds(s, k)) && (Holds(s, k) <==> !Stale(s, k))
  {
    SpellsNone(s.queues[k]);
    if s.waits[k] != [] {
      var t := s.waits[k][0];
      assert Waits(s, t, k) && HasPlace(s, t);
    }
  }

  lemma CreateKeeps(s: Sys, s2: Sys, memory: bool, ret: int)
    requires Partition(s) && Next(s, Create(memory), ret, s2)
    ensures Partition(s2)
  {
    assert forall t, k: nat :: Waits(s2, t, k) == Waits(s, t, k);
    if s2 != s {
      TailsDistinct(s.p.ready, ret);
    }
  }

  lemma YieldKeeps(s: Sys, s2: Sys, want: int, ret: int)
    requires Partition(s) && Next(s, Yield(want), ret, s2)
    ensures Partition(s2)
  {
    assert forall t, k: nat :: Waits(s2, t, k) == Waits(s, t, k);
    if YieldAllowed(s.p, want) {
      var i: nat :| Chosen(s.p.ready, want, i) && ret == s.p.ready[i] &&
                    s2.p == s.p.(current := s.p.ready[i], ready := Without(s.p.ready, i) + [s.p.current]);
      WithoutDistinct(s.p.ready, THREAD_MAX_THREADS, i);
      TailsDistinct(Without(s.p.ready, i), s.p.current);
    }
  }

  lemma ExitKeeps(s: Sys, s2: Sys, ret: int)
    requires Partition(s) && Next(s, Exit, ret, s2)
    ensures Exclusive(s2) && (Partition(s2) <==> !Cuts(s, Exit))
  {
    hide ZeroHarmless, UpToZero, Distinct;
    assert forall t, k: nat :: Waits(s2, t, k) == Waits(s, t, k);
    if s.p.ready != [] {
      ExitedReady(s.p.ready, s2.p.ready);
      assert forall t :: HasPlace(s2, t) ==> HasPlace(s, t) && t != s.p.current;
      if Cuts(s, Exit) {
        var t :| t in s.p.ready && t != s.p.ready[0] && t !in s2.p.ready;
        assert HasPlace(s, t) && t in s2.p.live && !HasPlace(s2, t);
      } else {
        assert forall t :: HasPlace(s, t) && t != s.p.current ==> HasPlace(s2, t);
      }
    }
  }

  lemma ExitedReady(q: seq<int>, r: seq<int>)
    requires Distinct(q, THREAD_MAX_THREADS) && q != [] && r <= q[1..]
    ensures Distinct(r, THREAD_MAX_THREADS) && IsTid(q[0]) && q[0] !in r
    ensures forall t | t in r :: t in q && t != q[0]
    ensures r == q[1..] ==> forall t | t in q && t != q[0] :: t in r
    ensures r != q[1..] ==> exists t :: t in q && t != q[0] && t !in r
  {
    assert forall i | 0 <= i < |r| :: r[i] == q[i + 1];
    if r != q[1..] {
      LastOut(q, r);
    } else {
      forall t | t in q && t != q[0] ensures t in r {
        var i :| 0 <= i < |q| && q[i] == t;
        assert r[i - 1] == t;
      }
    }
  }

  lemma LastOut(q: seq<int>, r: seq<int>)
    requires Distinct(q, THREAD_MAX_THREADS) && q != [] && r < q[1..]
    ensures exists t :: t in q && t != q[0] && t !in r
  {
    var t := q[|r| + 1];
    assert forall i | 0 <= i < |r| :: r[i] == q[i + 1];
    assert t in q && t != q[0] && t !in r;
  }

  lemma KillKeeps(s: Sys, s2: Sys, tid: int, ret: int)
    requires Partition(s) && Next(s, Kill(tid), ret, s2) && !KillsOutside(Kill(tid))
    ensures Partition(s2)
  {
    assert forall t, k: nat :: Waits(s2, t, k) == Waits(s, t, k);
    if tid in s.p.ready && tid != 0 {
      var i: nat :| i < |s.p.ready| && s.p.ready[i] == tid && s2.p.ready == Without(s.p.ready, i);
      WithoutDistinct(s.p.ready, THREAD_MAX_THREADS, i);
    }
  }

  lemma SleepKeeps(s: Sys, s2: Sys, k: nat, ret: int)
    requires Partition(s) && Next(s, Sleep(k), ret, s2) && !Outside(s, Sleep(k))
    ensures Exclusive(s2) && (Partition(s2) <==> !Misled(s, Sleep(k)))
  {
    hide Distinct, Spells, Enqueued;
    WaitersHold(s, k);
    if s.p.ready != [] {
      SleepMoves(s, s2, k, ret);
      var c := s.p.current;
      assert !Waits(s, c, k);
      EnqueuedIff(s.queues[k], s.waits[k], c);
      SpellsNone(s.queues[k]);
      assert Holds(s2, k) <==> !Misled(s, Sleep(k));
      assert forall l: nat | l != k :: Holds(s2, l) <==> Holds(s, l);
      if Holds(s2, k) {
        forall t | t in s2.p.live ensures HasPlace(s2, t) {
          assert HasPlace(s, t);
          if t == c { assert Waits(s2, t, k); }
          if l: nat :| Waits(s, t, l) && Holds(s, l) { assert Waits(s2, t, l) && Holds(s2, l); }
        }
      } else {
        assert Waits(s2, c, k) && c in s2.p.live && !HasPlace(s2, c);
      }
    } else {
      assert s2 == s;
    }
  }

  /** The caller leaves the processor for the queue. */
  lemma SleepMoves(s: Sys, s2: Sys, k: nat, ret: int)
    requires Exclusive(s) && Next(s, Sleep(k), ret, s2) && !Outside(s, Sleep(k)) && s.p.ready != []
    ensures Exclusive(s2)
    ensures forall t, l: nat :: Waits(s2, t, l) <==> Waits(s, t, l) || (t == s.p.current && l == k)
    ensures forall t :: t in s.p.ready <==> t == s2.p.current || t in s2.p.ready
    ensures s2.p.current != s.p.current && s.p.current !in s2.p.ready
  {
    var q, c := s.p.ready, s.p.current;
    WithoutDistinct(q, THREAD_MAX_THREADS, 0);
    assert q[1..] == Without(q, 0);
    assert !Waits(s, c, k);
    TailsDistinct(s.waits[k], c);
    assert forall t, l: nat :: Waits(s2, t, l) <==> Waits(s, t, l) || (t == c && l == k);
  }

  lemma WakeupKeeps(s: Sys, s2: Sys, k: nat, all: int, ret: int)
    requires Partition(s) && Next(s, Wakeup(k, all), ret, s2) && !Outside(s, Wakeup(k, all))
    ensures Partition(s2) <==> !Misled(s, Wakeup(k, all))
  {
    hide Distinct, Spells, Chain, Rewoken, Dropped, Taken, Woke, TailAgain;
    WaitersHold(s, k);
    if Stale(s, k) {
      if AsksToWake(all) {
        StaleWakeup(s, s2, k, all, ret);
      } else {
        assert s2 == s;
      }
    } else {
      WakeupMoves(s, s2, k, all, ret);
      forall l: nat, t | Waits(s2, t, l) ensures Holds(s2, l) {
        WaitersHold(s, l);
        assert Waits(s, t, l);
      }
      forall t | t in s2.p.live ensures HasPlace(s2, t) {
        assert HasPlace(s, t);
      }
    }
  }

  /** Of a queue in order the waiters are woken, and it stays so unless the last was woken singly. */
  lemma WakeupMoves(s: Sys, s2: Sys, k: nat, all: int, ret: int)
    requires Partition(s) && Next(s, Wakeup(k, all), ret, s2) && Holds(s, k)
    ensures Exclusive(s2) && s2.p.loose == {} && Woke(s.p, s.waits[k], s2.p, s2.waits[k], all, ret)
    ensures s2.p.current == s.p.current && s2.p.live == s.p.live && |s2.waits| == |s.waits|
    ensures forall t, l: nat :: Waits(s, t, l) ==> Waits(s2, t, l) || t in s2.p.ready
    ensures forall t, l: nat :: Waits(s2, t, l) ==> Waits(s, t, l)
    ensures forall t | t in s.p.ready :: t in s2.p.ready
    ensures Holds(s2, k) <==> !(all == 0 && |s.waits[k]| == 1)
    ensures s2.waits[k] != [] ==> Holds(s2, k)
    ensures forall l: nat | l != k :: Holds(s2, l) <==> Holds(s, l)
  {
    hide Spells, Chain, Rewoken, Dropped, Taken, Exclusive;
    var w := s.waits[k];
    WaitersApart(s, k);
    NotOutside(s, k, all);
    WokeWaiters(s.p, s.queues[k], w, s2.p, s2.queues[k], all, ret);
    if w != [] && AsksToWake(all) {
      var woken := if all == 0 then w[..1] else w;
      assert Left(w, all) == w[|woken|..];
      WokenMove(s, s2, k, woken);
    } else {
      assert s2.p == s.p && s2.waits == s.waits && s2.queues == s.queues;
      SameIsExclusive(s, s2);
    }
  }

  lemma WaitersApart(s: Sys, k: nat)
    requires Exclusive(s) && k < |s.waits|
    ensures forall t | t in s.waits[k] :: t !in s.p.ready
  {
    assert forall t | t in s.waits[k] :: Waits(s, t, k);
  }

  lemma SameIsExclusive(s: Sys, s2: Sys)
    requires Exclusive(s) && s2.p == s.p && s2.waits == s.waits && s2.queues == s.queues
    ensures Exclusive(s2)
    ensures forall t, l: nat :: Waits(s2, t, l) <==> Waits(s, t, l)
    ensures forall l: nat :: Holds(s2, l) <==> Holds(s, l)
  {
    assert forall t, l: nat :: Waits(s2, t, l) <==> Waits(s, t, l);
  }

  /** Some waiters of a queue are now ready. */
  lemma WokenMove(s: Sys, s2: Sys, k: nat, woken: seq<int>)
    requires Exclusive(s) && k < |s.waits| && woken <= s.waits[k] && |s2.queues| == |s.queues|
    requires s2.p == s.p.(ready := s.p.ready + woken) && s2.waits == s.waits[k := s.waits[k][|woken|..]]
    requires forall l: nat | l < |s.queues| && l != k :: s2.queues[l] == s.queues[l]
    ensures Exclusive(s2)
    ensures forall t, l: nat :: Waits(s2, t, l) <==> Waits(s, t, l) && !(l == k && t in woken)
    ensures forall l: nat | l != k :: Holds(s2, l) <==> Holds(s, l)
  {
    hide Spells;
    var w := s.waits[k];
    assert forall t | t in w :: Waits(s, t, k);
    WokenApart(w, woken, w[|woken|..]);
    assert forall t, l: nat :: Waits(s2, t, l) <==> Waits(s, t, l) && !(l == k && t in woken);
    ConcatDistinct(s.p.ready, woken);
  }

  lemma NotOutside(s: Sys, k: nat, all: int)
    requires Holds(s, k)
    ensures !Outside(s, Wakeup(k, all))
  {
    if s.waits[k] != [] {
      WaitersChain(s.queues[k], s.waits[k], all);
    }
  }

  /** Of a queue that nobody waits in those are woken that it happens to lead along. */
  lemma StaleWakeup(s: Sys, s2: Sys, k: nat, all: int, ret: int)
    requires Partition(s) && Next(s, Wakeup(k, all), ret, s2) && !Outside(s, Wakeup(k, all)) && Stale(s, k) && AsksToWake(all)
    ensures Partition(s2) <==> !Misled(s, Wakeup(k, all))
  {
    hide Spells, Chain, Rewoken, Taken, TailAgain;
    var c :| WokeThese(s.p, s.queues[k], s2.p, s2.queues[k], all, ret, c);
    ChainDistinct(s.queues[k], all, c);
    assert Misled(s, Wakeup(k, all)) <==> !TailAgain(s.p.ready, c) by {
      forall d | Chain(s.queues[k], all, d) ensures d == c { ChainUnique(s.queues[k], all, c, d); }
    }
    ChainNonempty(s.queues[k], all, c);
    TailAgainIff(s.p.ready, c);
    DistinctTids(c);
    RewokenMembers(s.p.ready, c);
    assert forall t, l: nat :: Waits(s2, t, l) <==> Waits(s, t, l);
    assert forall l: nat | l != k :: Holds(s2, l) <==> Holds(s, l);
    if TailAgain(s.p.ready, c) {
      assert s2.p.loose == {};
      forall t | t in s2.p.live ensures HasPlace(s2, t) {
        assert HasPlace(s, t);
        if l: nat :| Waits(s, t, l) && Holds(s, l) { assert Waits(s2, t, l) && Holds(s2, l); }
      }
    } else if Partition(s2) {
      ReadyAsBefore(s, s2, c);
    }
  }

  lemma ChainNonempty(q: Queue, all: int, c: seq<int>)
    requires Chain(q, all, c)
    ensures c != []
  {
  }

  /** With everybody in one place afterwards the threads woken were ready before, and nobody was dropped. */
  lemma ReadyAsBefore(s: Sys, s2: Sys, c: seq<int>)
    requires Partition(s) && Partition(s2) && s2.p.current == s.p.current && s2.p.live == s.p.live
    requires forall t, l: nat :: Waits(s2, t, l) <==> Waits(s, t, l)
    requires s2.p.loose == Dropped(s.p.loose, s.p.ready, c, s2.p.ready)
    ensures (forall t | t in c :: t in s.p.ready) && forall t | t in s.p.ready :: t in s2.p.ready
  {
    forall t | t in s.p.ready || t in c ensures t in s2.p.ready {
      assert t in s2.p.ready || t in s2.p.loose;
    }
    forall t | t in c ensures t in s.p.ready {
      assert t in s2.p.ready && t in s.p.live && HasPlace(s, t);
    }
  }

  lemma ConcatDistinct(q: seq<int>, w: seq<int>)
    requires Distinct(q, THREAD_MAX_THREADS) && Distinct(w, THREAD_MAX_THREADS) && forall t | t in w :: t !in q
    ensures Distinct(q + w, THREAD_MAX_THREADS)
  {
    var r := q + w;
    forall i, j | 0 <= i < j < |r| ensures r[i] != r[j] {
      if i < |q| <= j { assert r[j] in w && r[i] in q; }
    }
  }

  lemma WokenApart(w: seq<int>, woken: seq<int>, rest: seq<int>)
    requires Distinct(w, THREAD_MAX_THREADS) && w == woken + rest
    ensures Distinct(woken, THREAD_MAX_THREADS) && Distinct(rest, THREAD_MAX_THREADS)
    ensures forall t :: t in w <==> t in woken || t in rest
    ensures forall t :: !(t in woken && t in rest)
  {
    forall i | 0 <= i < |woken| ensures woken[i] == w[i] {}
    forall i | 0 <= i < |rest| ensures rest[i] == w[|woken| + i] {}
  }

  /** Every call keeps every thread in exactly one place, exactly unless it does harm. */
  lemma StepKeepsPartition(s: Sys, call: Call, ret: int, s2: Sys)
    requires Partition(s) && Next(s, call, ret, s2)
    ensures s2.ended == Harms(s, call)
    ensures !Outside(s, call) ==> (Partition(s2) <==> !Harms(s, call))
  {
    hide Partition, Exclusive;
    OutsideIsHarm(s, call, ret, s2);
    if !Outside(s, call) {
      match call
      case Create(memory) => CreateKeeps(s, s2, memory, ret);
      case Yield(want) => YieldKeeps(s, s2, want, ret);
      case Exit => ExitKeeps(s, s2, ret);
      case Kill(tid) => KillKeeps(s, s2, tid, ret);
      case Sleep(k) => SleepKeeps(s, s2, k, ret);
      case Wakeup(k, all) => WakeupKeeps(s, s2, k, all, ret);
    }
  }

  lemma OutsideIsHarm(s: Sys, call: Call, ret: int, s2: Sys)
    requires Partition(s) && Next(s, call, ret, s2)
    ensures Outside(s, call) ==> Harms(s, call)
  {
    match call
    case Sleep(k) =>
      if k < |s.waits| {
        WaitersHold(s, k);
        if Holds(s, k) { TailOfWaiters(s.queues[k], s.waits[k]); }
      }
    case Wakeup(k, all) =>
      if k < |s.waits| {
        WaitersHold(s, k);
        if Holds(s, k) { NotOutside(s, k, all); }
      }
    case _ =>
  }

  /** Everybody in one place, and no harm done. */
  ghost predicate InOrder(s: Sys)
  {
    Partition(s) && !s.ended
  }

  lemma NextKeepsOrder(s: Sys, call: Call, ret: int, s2: Sys)
    requires Partition(s) && Next(s, call, ret, s2)
    ensures InOrder(s2) <==> !Harms(s, call)
  {
    StepKeepsPartition(s, call, ret, s2);
  }

  /** Nothing is left out: from every state in order every call has a step. */
  lemma EveryCallIsAStep(s: Sys, call: Call)
    requires InOrder(s) && (call.Sleep? || call.Wakeup? ==> call.k < |s.waits|)
    ensures exists ret, s2 :: Next(s, call, ret, s2)
  {
    hide Partition;
    if Outside(s, call) {
      assert Next(s, call, 0, s.(ended := true));
    } else {
      StepExists(s, call);
    }
  }

  lemma StepExists(s: Sys, call: Call)
    requires InOrder(s) && !Outside(s, call) && (call.Sleep? || call.Wakeup? ==> call.k < |s.waits|)
    ensures exists ret, s2 :: Next(s, call, ret, s2)
  {
    hide Outside, Harms, Misled, Cuts, CutOff, UpToZero, Chain, Rewoken, Dropped, Taken, HasPlace;
    match call
    case Create(memory) =>
      if IdsLeft(s.p) && memory {
        var t := LeastId(s.p);
        assert Next(s, call, t, s.(p := s.p.(ready := s.p.ready + [t], live := s.p.live + {t})));
      } else {
        assert Next(s, call, if IdsLeft(s.p) then THREAD_NOMEMORY else THREAD_NOMORE, s);
      }
    case Yield(want) =>
      if YieldAllowed(s.p, want) {
        var i: nat := if want == THREAD_ANY then 0 else IndexOf(s.p.ready, want);
        assert Chosen(s.p.ready, want, i);
        assert Next(s, call, s.p.ready[i],
                    s.(p := s.p.(current := s.p.ready[i], ready := Without(s.p.ready, i) + [s.p.current])));
      } else {
        assert Next(s, call, if want == THREAD_SELF || want == s.p.current then s.p.current
                             else if want == THREAD_ANY then THREAD_NONE else THREAD_INVALID, s);
      }
    case Exit =>
      var q := s.p.ready;
      var kept := if q == [] || s.settled then q[if q == [] then 0 else 1..] else UpToZero(q[1..]);
      var p2 := if q == [] then s.p
                else Place(q[0], kept, s.p.live - {s.p.current}, s.p.loose + CutOff(q[1..], kept));
      assert Next(s, call, THREAD_NONE, s.(p := p2, settled := s.settled || Leaves(s, call), ended := Cuts(s, call)));
    case Kill(tid) =>
      if tid in s.p.ready && tid != 0 {
        var i := IndexOf(s.p.ready, tid);
        assert Next(s, call, tid, s.(p := s.p.(ready := Without(s.p.ready, i), live := s.p.live - {tid})));
      } else {
        assert Next(s, call, THREAD_INVALID, s);
      }
    case Sleep(k) => SleepExists(s, k);
    case Wakeup(k, all) => WakeupExists(s, k, all);
  }

  lemma SleepExists(s: Sys, k: nat)
    requires InOrder(s) && !Outside(s, Sleep(k)) && k < |s.waits|
    ensures exists ret, s2 :: Next(s, Sleep(k), ret, s2)
  {
    hide Misled, HasPlace;
    var q, c := s.p.ready, s.p.current;
    if q == [] {
      assert s.waits[k := s.waits[k]] == s.waits && s.queues[k := s.queues[k]] == s.queues;
      assert Next(s, Sleep(k), THREAD_NONE, s.(ended := Misled(s, Sleep(k))));
    } else {
      assert Next(s, Sleep(k), q[0],
                  s.(p := s.p.(current := q[0], ready := q[1..]), waits := s.waits[k := s.waits[k] + [c]],
                     queues := s.queues[k := Enqueued(s.queues[k], c)], ended := Misled(s, Sleep(k))));
    }
  }

  lemma WakeupExists(s: Sys, k: nat, all: int)
    requires InOrder(s) && !Outside(s, Wakeup(k, all)) && k < |s.waits|
    ensures exists ret, s2 :: Next(s, Wakeup(k, all), ret, s2)
  {
    hide Misled, HasPlace, Chain, Rewoken, Dropped;
    var q := s.queues[k];
    var w2 := if AsksToWake(all) then Left(s.waits[k], all) else s.waits[k];
    if Idle(q) || !AsksToWake(all) {
      assert s.queues[k := q] == s.queues;
      assert Next(s, Wakeup(k, all), 0, s.(waits := s.waits[k := w2], ended := Misled(s, Wakeup(k, all))));
    } else {
      var c :| Chain(q, all, c);
      HeadOfChain(q, all, c);
      var r := Rewoken(s.p.ready, c);
      var p2 := s.p.(ready := r, loose := Dropped(s.p.loose, s.p.ready, c, r));
      assert WokeThese(s.p, q, p2, Taken(q, all), all, |c|, c);
      assert Next(s, Wakeup(k, all), |c|,
                  s.(p := p2, waits := s.waits[k := w2], queues := s.queues[k := Taken(q, all)],
                     ended := Misled(s, Wakeup(k, all))));
    }
  }

  lemma HeadOfChain(q: Queue, all: int, c: seq<int>)
    requires Chain(q, all, c)
    ensures IsTid(q.head)
  {
  }

  /** The least id that is free. */
  ghost function LeastId(p: Place): (t: int)
    requires IdsLeft(p)
    ensures 1 <= t < THREAD_MAX_THREADS && t !in p.live && forall u | 1 <= u < t :: u in p.live
  {
    LeastFrom(p, 1)
  }

  ghost function LeastFrom(p: Place, t: int): (r: int)
    requires 1 <= t && (exists u :: t <= u < THREAD_MAX_THREADS && u !in p.live) && forall u | 1 <= u < t :: u in p.live
    ensures 1 <= r < THREAD_MAX_THREADS && r !in p.live && forall u | 1 <= u < r :: u in p.live
    decreases THREAD_MAX_THREADS - t
  {
    if t !in p.live then t else LeastFrom(p, t + 1)
  }

  // ---- runs

  /** In step `i` of a run call `calls[i]` returns `rets[i]`. */
  ghost predicate Run(ss: seq<Sys>, calls: seq<Call>, rets: seq<int>)
  {
    && |ss| == |calls| + 1 && |rets| == |calls|
    && forall i: nat | i < |calls| :: Next(ss[i], calls[i], rets[i], ss[i + 1])
  }

  /** The library after thread_init, with wait queues that hold what was written there, or what malloc left. */
  function Start(queues: seq<Queue>): Sys
  {
    Sys(Place(0, [], {0}, {}), seq(|queues|, _ => []), queues, false, false)
  }

  lemma StartIsPartition(queues: seq<Queue>)
    ensures Partition(Start(queues))
  {
    assert forall t, k: nat :: !Waits(Start(queues), t, k);
  }

  /** Call `m` is the first exit that finds another thread to run. */
  ghost predicate FirstExit(ss: seq<Sys>, calls: seq<Call>, m: nat)
    requires |ss| == |calls| + 1
  {
    m < |calls| && Leaves(ss[m], calls[m]) && forall l: nat | l < m :: !Leaves(ss[l], calls[l])
  }

  /** Up to the last step of a run everything is in order. */
  lemma {:induction false} RunsKeepOrder(ss: seq<Sys>, calls: seq<Call>, rets: seq<int>, n: nat)
    requires Run(ss, calls, rets) && n < |ss| && InOrder(ss[0])
    ensures n < |calls| ==> InOrder(ss[n])
    ensures n > 0 ==> InOrder(ss[n - 1]) && (InOrder(ss[n]) <==> !Harms(ss[n - 1], calls[n - 1]))
    decreases n
  {
    hide Partition, Harms;
    assert n < |calls| ==> Next(ss[n], calls[n], rets[n], ss[n + 1]);
    if n > 0 {
      var m := n - 1;
      RunsKeepOrder(ss, calls, rets, m);
      StepKeepsPartition(ss[m], calls[m], rets[m], ss[m + 1]);
      NextKeepsOrder(ss[m], calls[m], rets[m], ss[m + 1]);
    }
  }

  lemma {:induction false} SettledIff(ss: seq<Sys>, calls: seq<Call>, rets: seq<int>, n: nat)
    requires Run(ss, calls, rets) && n < |ss| && !ss[0].settled
    ensures ss[n].settled <==> exists m: nat :: m < n && Leaves(ss[m], calls[m])
    decreases n
  {
    if n > 0 {
      SettledIff(ss, calls, rets, n - 1);
      assert Next(ss[n - 1], calls[n - 1], rets[n - 1], ss[n]);
    }
  }

  /**
   After any run from thread_init each thread is in exactly one place, if and only if the first exit with another
   thread to run did not find thread 0 ready with a successor, no queue was used that nobody waited in and that led
   elsewhere, and no thread was killed by an id outside the table.
   */
  lemma {:induction false} RunsKeepPartition(ss: seq<Sys>, calls: seq<Call>, rets: seq<int>, n: nat)
    requires Run(ss, calls, rets) && n < |ss| && InOrder(ss[0]) && !ss[0].settled
    ensures InOrder(ss[n]) <==>
            && (forall m: nat | m < n && FirstExit(ss, calls, m) :: ZeroHarmless(ss[m].p.ready[1..]))
            && (forall m: nat | m < n :: !Misled(ss[m], calls[m]) && !KillsOutside(calls[m]))
    decreases n
  {
    hide Partition, ZeroHarmless, Misled, Next;
    if n > 0 {
      var m := n - 1;
      RunsKeepPartition(ss, calls, rets, m);
      RunsKeepOrder(ss, calls, rets, n);
      SettledIff(ss, calls, rets, m);
      assert FirstExit(ss, calls, m) <==> Leaves(ss[m], calls[m]) && !ss[m].settled;
    }
  }

  /** The call takes the only waiter of the queue by a single wake-up. */
  predicate TakesLast(s: Sys, call: Call, k: nat)
    requires k < |s.waits|
  {
    call == Wakeup(k, 0) && |s.waits[k]| == 1
  }

  /** The call puts a thread into the queue, or wakes all. */
  predicate Refreshes(s: Sys, call: Call, k: nat)
  {
    (call == Sleep(k) && s.p.ready != []) || call == Wakeup(k, 1)
  }

  /** No call between `m` and `n` refreshes the queue. */
  predicate NotRefreshed(ss: seq<Sys>, calls: seq<Call>, m: nat, n: nat, k: nat)
    requires m < n <= |calls| < |ss|
  {
    forall l: nat | m < l < n :: !Refreshes(ss[l], calls[l], k)
  }

  /** A queue that was in order is stale when its only waiter was woken singly, and it was not refreshed since. */
  lemma {:induction false} StaleIff(ss: seq<Sys>, calls: seq<Call>, rets: seq<int>, n: nat, k: nat)
    requires Run(ss, calls, rets) && n < |ss| && InOrder(ss[0]) && k < |ss[0].waits| && !Stale(ss[0], k) && InOrder(ss[n])
    ensures forall m: nat | m <= n :: |ss[m].waits| == |ss[0].waits|
    ensures Stale(ss[n], k) <==>
            exists m: nat :: m < n && TakesLast(ss[m], calls[m], k) && NotRefreshed(ss, calls, m, n, k)
    ensures Stale(ss[n], k) ==> IsTid(ss[n].queues[k].tail)
    decreases n
  {
    hide Partition, Next;
    if n > 0 {
      var m := n - 1;
      RunsKeepOrder(ss, calls, rets, m);
      RunsKeepOrder(ss, calls, rets, n);
      StaleIff(ss, calls, rets, m, k);
      StaleStep(ss[m], calls[m], rets[m], ss[n], k);
      assert NotRefreshed(ss, calls, m, n, k);
      forall l: nat | l < m ensures NotRefreshed(ss, calls, l, n, k) <==>
                                    NotRefreshed(ss, calls, l, m, k) && !Refreshes(ss[m], calls[m], k) {}
    }
  }

  lemma StaleStep(s: Sys, call: Call, ret: int, s2: Sys, k: nat)
    requires InOrder(s) && Next(s, call, ret, s2) && InOrder(s2) && k < |s.waits|
    requires Stale(s, k) ==> IsTid(s.queues[k].tail)
    ensures |s2.waits| == |s.waits|
    ensures Stale(s2, k) <==> TakesLast(s, call, k) || (Stale(s, k) && !Refreshes(s, call, k))
    ensures Stale(s2, k) ==> IsTid(s2.queues[k].tail)
  {
    hide Partition;
    NextKeepsOrder(s, call, ret, s2);
    OutsideIsHarm(s, call, ret, s2);
    WaitersHold(s, k);
    match call
    case Sleep(l) =>
    case Wakeup(l, all) =>
      if l == k { WakeupStales(s, all, ret, s2, k); }
    case _ =>
  }

  lemma WakeupStales(s: Sys, all: int, ret: int, s2: Sys, k: nat)
    requires Partition(s) && Next(s, Wakeup(k, all), ret, s2) && Partition(s2) && k < |s.waits| && !Outside(s, Wakeup(k, all))
    requires Stale(s, k) ==> IsTid(s.queues[k].tail)
    ensures Stale(s2, k) <==> TakesLast(s, Wakeup(k, all), k) || (Stale(s, k) && all != 1)
    ensures Stale(s2, k) ==> IsTid(s2.queues[k].tail)
  {
    hide Chain, Rewoken, Dropped, Partition, Exclusive;
    WaitersHold(s, k);
    if Stale(s, k) {
      if AsksToWake(all) {
        var c :| WokeThese(s.p, s.queues[k], s2.p, s2.queues[k], all, ret, c);
      }
    } else {
      WakeupMoves(s, s2, k, all, ret);
      TailOfWaiters(s.queues[k], s.waits[k]);
    }
  }

  lemma TailOfWaiters(q: Queue, w: seq<int>)
    requires Spells(q, w)
    ensures w != [] ==> IsTid(q.tail)
  {
  }

  /** Four threads, an exit while thread 0 is ready: thread 3 exists, and no call will ever run it. */
  lemma ThreadsAreLost(ss: seq<Sys>)
    requires ss == var w := Start([]);
             [w, w.(p := Place(0, [1], {0, 1}, {})), w.(p := Place(0, [1, 2], {0, 1, 2}, {})),
              w.(p := Place(1, [2, 0], {0, 1, 2}, {})), w.(p := Place(1, [2, 0, 3], {0, 1, 2, 3}, {})),
              w.(p := Place(2, [0], {0, 2, 3}, {}), settled := true, ended := true)]
    ensures Run(ss, [Create(true), Create(true), Yield(THREAD_ANY), Create(true), Exit], [1, 2, 1, 3, 0])
    ensures 3 in ss[5].p.live && !HasPlace(ss[5], 3)
  {
    hide Next;
    var calls, rets := [Create(true), Create(true), Yield(THREAD_ANY), Create(true), Exit], [1, 2, 1, 3, 0];
    CreatesNext(ss[0], ss[1], 1);
    CreatesNext(ss[1], ss[2], 2);
    YieldsToFirst(ss[2], ss[3]);
    CreatesNext(ss[3], ss[4], 3);
    ExitCuts(ss[4], ss[5]);
    forall i: nat | i < |calls| ensures Next(ss[i], calls[i], rets[i], ss[i + 1]) {
      assert i == 0 || i == 1 || i == 2 || i == 3 || i == 4;
    }
  }

  lemma CreatesNext(s: Sys, s2: Sys, t: int)
    requires !s.ended && 1 <= t <= 3 && forall u :: u in s.p.live <==> 0 <= u < t
    requires s2 == s.(p := s.p.(ready := s.p.ready + [t], live := s.p.live + {t}))
    ensures Next(s, Create(true), t, s2)
  {
    assert t !in s.p.live;
  }

  lemma YieldsToFirst(s: Sys, s2: Sys)
    requires !s.ended && |s.p.ready| == 2 && s.p.current >= 0
    requires s2 == s.(p := s.p.(current := s.p.ready[0], ready := [s.p.ready[1], s.p.current]))
    ensures Next(s, Yield(THREAD_ANY), s.p.ready[0], s2)
  {
    assert Chosen(s.p.ready, THREAD_ANY, 0);
    assert Without(s.p.ready, 0) == [s.p.ready[1]];
  }

  lemma ExitCuts(s: Sys, s2: Sys)
    requires !s.ended && !s.settled && |s.p.ready| == 3 && s.p.ready[1] == 0
    requires s2 == s.(p := Place(s.p.ready[0], [0], s.p.live - {s.p.current}, s.p.loose), settled := true, ended := true)
    ensures Next(s, Exit, 0, s2)
  {
    var r := s.p.ready[1..];
    assert r[0] == 0 && UpToZero(r) == [0];
    assert CutOff(r, [0]) == {} by { assert forall t | t in r :: t == r[0] || t == r[1]; }
  }

  /**
   Two threads and a queue as wait_queue_create makes it: thread 0 sleeps, thread 1 wakes it, and then sleeps itself.
   The head is what malloc left in link 0, and all is well exactly if that happened to be 1.
   */
  lemma SecondSleeperIff(ss: seq<Sys>, links: Links)
    requires ss == var q := Queue(-1, -1, links); var w := Start([q]);
             [w, w.(p := Place(0, [1], {0, 1}, {})),
              w.(p := Place(1, [], {0, 1}, {}), waits := [[0]], queues := [Queue(0, 0, links)]),
              w.(p := Place(1, [0], {0, 1}, {}), queues := [Queue(links[0], 0, links)]),
              w.(p := Place(0, [], {0, 1}, {}), waits := [[1]], queues := [Queue(links[0], 1, links[0 := 1])],
                 ended := links[0] != 1)]
    ensures Run(ss, [Create(true), Sleep(0), Wakeup(0, 0), Sleep(0)], [1, 1, 1, 0])
    ensures InOrder(ss[0]) && (InOrder(ss[4]) <==> links[0] == 1)
    ensures links[0] != 1 ==> 1 in ss[4].p.live && !HasPlace(ss[4], 1)
  {
    hide Next, Partition, Enqueued, Run;
    var q := Queue(-1, -1, links);
    StartIsPartition([q]);
    SecondSleeperRuns(ss, links);
    RunsKeepOrder(ss, [Create(true), Sleep(0), Wakeup(0, 0), Sleep(0)], [1, 1, 1, 0], 4);
    assert Misled(ss[3], Sleep(0)) <==> links[0] != 1;
    if links[0] != 1 {
      assert !Holds(ss[4], 0);
    }
  }

  lemma SecondSleeperRuns(ss: seq<Sys>, links: Links)
    requires ss == var q := Queue(-1, -1, links); var w := Start([q]);
             [w, w.(p := Place(0, [1], {0, 1}, {})),
              w.(p := Place(1, [], {0, 1}, {}), waits := [[0]], queues := [Queue(0, 0, links)]),
              w.(p := Place(1, [0], {0, 1}, {}), queues := [Queue(links[0], 0, links)]),
              w.(p := Place(0, [], {0, 1}, {}), waits := [[1]], queues := [Queue(links[0], 1, links[0 := 1])],
                 ended := links[0] != 1)]
    ensures Run(ss, [Create(true), Sleep(0), Wakeup(0, 0), Sleep(0)], [1, 1, 1, 0])
  {
    hide Next, Partition;
    var calls, rets := [Create(true), Sleep(0), Wakeup(0, 0), Sleep(0)], [1, 1, 1, 0];
    assert ss[0].waits == [[]] && [] + [0] == [0] && [] + [1] == [1];
    CreatesNext(ss[0], ss[1], 1);
    SleepsNext(ss[1], ss[2], 1);
    WakesNext(ss[2], ss[3]);
    SleepsNext(ss[3], ss[4], 0);
    forall i: nat | i < |calls| ensures Next(ss[i], calls[i], rets[i], ss[i + 1]) {
      assert i == 0 || i == 1 || i == 2 || i == 3;
    }
  }

  lemma SleepsNext(s: Sys, s2: Sys, t: int)
    requires !s.ended && s.p.ready == [t] && |s.waits| == |s.queues| == 1 && CanEnqueue(s.queues[0])
    requires s2 == s.(p := s.p.(current := t, ready := []), waits := [s.waits[0] + [s.p.current]],
                      queues := [Enqueued(s.queues[0], s.p.current)], ended := Misled(s, Sleep(0)))
    ensures Next(s, Sleep(0), t, s2)
  {
  }

  lemma WakesNext(s: Sys, s2: Sys)
    requires !s.ended && s.p.loose == {} && s.p.ready == [] && |s.waits| == |s.queues| == 1 && s.waits[0] == [0] && Holds(s, 0)
    requires s2 == s.(p := s.p.(ready := [0]), waits := [[]], queues := [Taken(s.queues[0], 0)])
    ensures Next(s, Wakeup(0, 0), 1, s2)
  {
    hide Chain, Rewoken, Dropped, Spells;
    var c := [0];
    NotOutside(s, 0, 0);
    SpellsSome(s.queues[0], c);
    WaitersChain(s.queues[0], c, 0);
    assert c[..1] == c;
    WokenAtEnd([], c);
    assert [] + c == c && c[1..] == [];
    assert WokeThese(s.p, s.queues[0], s2.p, s2.queues[0], 0, 1, c);
    assert s.waits[0 := []] == [[]] && s.queues[0 := s2.queues[0]] == s2.queues;
  }

  // ---- what the calls do

  /** The least free id above 0 becomes a thread and comes to the end of the ready queue; or nothing changes. */
  lemma CreateOutcome(s: Sys, memory: bool, ret: int, s2: Sys)
    requires InOrder(s) && Next(s, Create(memory), ret, s2)
    ensures ret > 0 <==> memory && exists t :: 0 < t < THREAD_MAX_THREADS && t !in s.p.live
    ensures ret > 0 ==>
              && IsTid(ret) && ret !in s.p.live && (forall t | 0 < t < ret :: t in s.p.live)
              && s2.p.live == s.p.live + {ret} && s2.p.ready == s.p.ready + [ret] && s2.p.current == s.p.current
    ensures ret <= 0 ==> s2 == s && ret in {THREAD_NOMORE, THREAD_NOMEMORY}
  {
  }

  /** The thread asked for runs, the first ready one for ANY, and the caller is the last that is ready; or nothing changes. */
  lemma YieldOutcome(s: Sys, want: int, ret: int, s2: Sys)
    requires InOrder(s) && Next(s, Yield(want), ret, s2)
    ensures s2.p.live == s.p.live && s2.waits == s.waits
    ensures want in s.p.ready || (want == THREAD_ANY && s.p.ready != []) ==>
              && ret == s2.p.current == (if want == THREAD_ANY then s.p.ready[0] else want)
              && s2.p.ready != [] && s2.p.ready[|s2.p.ready| - 1] == s.p.current
              && forall t :: t in s2.p.ready <==> t == s.p.current || (t in s.p.ready && t != ret)
    ensures !(want in s.p.ready || (want == THREAD_ANY && s.p.ready != [])) ==>
              s2 == s && ret == if want == THREAD_SELF || want == s.p.current then s.p.current
                                else if want == THREAD_ANY then THREAD_NONE else THREAD_INVALID
  {
    var q := s.p.ready;
    if YieldAllowed(s.p, want) {
      var i: nat :| Chosen(q, want, i) && ret == q[i] &&
                    s2.p == s.p.(current := q[i], ready := Without(q, i) + [s.p.current]);
      WithoutDistinct(q, THREAD_MAX_THREADS, i);
    }
  }

  /** Who exits is gone, and the first ready thread runs; only the last thread there is goes on. */
  lemma ExitOutcome(s: Sys, ret: int, s2: Sys)
    requires InOrder(s) && Next(s, Exit, ret, s2)
    ensures s.p.ready == [] ==> s2.p == s.p && ret == THREAD_NONE
    ensures s.p.ready != [] ==>
              s2.p.current == s.p.ready[0] && s2.p.live == s.p.live - {s.p.current} && !HasPlace(s2, s.p.current)
  {
    if s.p.ready != [] {
      ExitedReady(s.p.ready, s2.p.ready);
      assert forall t, k: nat :: Waits(s2, t, k) == Waits(s, t, k);
    }
  }

  /** A ready thread other than thread 0 is gone after a kill, and nobody else changes his place; or nothing changes. */
  lemma KillOutcome(s: Sys, tid: int, ret: int, s2: Sys)
    requires InOrder(s) && Next(s, Kill(tid), ret, s2) && !KillsOutside(Kill(tid))
    ensures s2.p.current == s.p.current && s2.waits == s.waits
    ensures ret == tid && tid in s.p.live <==> tid in s.p.ready && tid != 0
    ensures tid in s.p.ready && tid != 0 ==>
              && s2.p.live == s.p.live - {tid} && !HasPlace(s2, tid)
              && forall t :: t in s2.p.ready <==> t in s.p.ready && t != tid
    ensures !(tid in s.p.ready && tid != 0) ==> s2 == s && ret == THREAD_INVALID
  {
    assert forall t, k: nat :: Waits(s2, t, k) == Waits(s, t, k);
    if tid in s.p.ready && tid != 0 {
      var i: nat :| i < |s.p.ready| && s.p.ready[i] == tid && s2.p.ready == Without(s.p.ready, i);
      WithoutDistinct(s.p.ready, THREAD_MAX_THREADS, i);
    }
  }

  /** Who sleeps is the last that waits, and the first ready thread runs; with nobody to run nothing changes. */
  lemma SleepOutcome(s: Sys, k: nat, ret: int, s2: Sys)
    requires InOrder(s) && Next(s, Sleep(k), ret, s2) && !Outside(s, Sleep(k)) && k < |s.waits|
    ensures |s2.waits| == |s.waits| && s2.p.live == s.p.live
    ensures forall l: nat | l < |s.waits| && l != k :: s2.waits[l] == s.waits[l]
    ensures s.p.ready == [] ==> s2.p == s.p && s2.waits == s.waits && ret == THREAD_NONE
    ensures s.p.ready != [] ==>
              && ret == s2.p.current == s.p.ready[0] && s2.p.ready == s.p.ready[1..]
              && s2.waits[k] == s.waits[k] + [s.p.current]
  {
  }

  /** Of a queue in order the first waiter, or all of them, come to the end of the ready queue, and are counted. */
  lemma WakeupOutcome(s: Sys, k: nat, all: int, ret: int, s2: Sys)
    requires InOrder(s) && Next(s, Wakeup(k, all), ret, s2) && k < |s.waits| && !Stale(s, k)
    ensures |s2.waits| == |s.waits| && s2.p.current == s.p.current && s2.p.live == s.p.live
    ensures forall l: nat | l < |s.waits| && l != k :: s2.waits[l] == s.waits[l]
    ensures 0 <= ret <= |s.waits[k]| && s2.p.ready == s.p.ready + s.waits[k][..ret] && s2.waits[k] == s.waits[k][ret..]
    ensures all == 0 && s.waits[k] != [] ==> ret == 1
    ensures all == 1 ==> ret == |s.waits[k]|
    ensures all != 0 && all != 1 ==> ret == 0
  {
    hide Spells, Chain, Rewoken, Dropped, Partition;
    WaitersHold(s, k);
    NotOutside(s, k, all);
    WakeupMoves(s, s2, k, all, ret);
  }

  lemma LiveStep(s: Sys, call: Call, ret: int, s2: Sys, t: int)
    requires InOrder(s) && Next(s, call, ret, s2) && t !in s.p.live && !(call.Create? && ret == t)
    ensures t !in s2.p.live
  {
    hide Chain, Rewoken, Dropped, Partition;
  }

  /** A thread that is gone neither lives nor runs again, until thread_create hands out its id anew. */
  lemma {:induction false} GoneForGood(ss: seq<Sys>, calls: seq<Call>, rets: seq<int>, n: nat, t: int)
    requires Run(ss, calls, rets) && n < |ss| && InOrder(ss[0]) && t !in ss[0].p.live
    requires forall m: nat | m < n :: !(calls[m].Create? && rets[m] == t)
    ensures t !in ss[n].p.live && (InOrder(ss[n]) ==> ss[n].p.current != t && t !in ss[n].p.ready)
    decreases n
  {
    hide Next;
    if n > 0 {
      var m := n - 1;
      GoneForGood(ss, calls, rets, m, t);
      RunsKeepOrder(ss, calls, rets, m);
      assert Next(ss[m], calls[m], rets[m], ss[n]);
      LiveStep(ss[m], calls[m], rets[m], ss[n], t);
    }
  }

  // ---- bounded waiting

  /** Thread `t` is ready, with `i` threads before it. */
  ghost predicate ReadyAt(s: Sys, t: int, i: int)
  {
    0 <= i < |s.p.ready| && s.p.ready[i] == t
  }

  /** The calls that let the first ready thread run. */
  predicate TakesFirst(call: Call)
  {
    call == Yield(THREAD_ANY) || call.Exit? || call.Sleep?
  }

  /** The call wakes threads through a queue that nobody waits in, and `c` are they. */
  ghost predicate WakesStale(s: Sys, call: Call, c: seq<int>)
  {
    call.Wakeup? && AsksToWake(call.all) && Stale(s, call.k) && Chain(s.queues[call.k], call.all, c)
  }

  /** Thread `t` is woken although it is ready. */
  ghost predicate WokenAgain(s: Sys, call: Call, t: int)
  {
    t in s.p.ready && exists c :: WakesStale(s, call, c) && t in c
  }

  /**
   What is ready at position `i` is lost: the call is the first exit with another thread to run and thread 0 is
   before that position, or a thread before it is woken again, and it is not.
   */
  ghost predicate LosesAt(s: Sys, call: Call, i: int)
  {
    || (Leaves(s, call) && !s.settled && exists a :: 1 <= a < i && a < |s.p.ready| && s.p.ready[a] == 0)
    || (exists c :: WakesStale(s, call, c) && 0 <= i < |s.p.ready| && s.p.ready[i] !in c && AgainBefore(s.p.ready, c, i))
  }

  ghost predicate AgainBefore(q: seq<int>, c: seq<int>, i: int)
  {
    exists a :: 0 <= a < i && a < |q| && q[a] in c
  }

  /**
   In every step a ready thread runs, or is killed, or is woken again, or stays ready and does not move back; when the
   first ready thread is taken it moves up by one. Only behind thread 0, or behind one that is woken again, is it lost.
   */
  lemma NobodyIsPassedOver(s: Sys, call: Call, ret: int, s2: Sys, t: int, i: nat)
    requires InOrder(s) && Next(s, call, ret, s2) && ReadyAt(s, t, i)
    ensures !Outside(s, call) && !LosesAt(s, call, i) ==>
            || s2.p.current == t
            || (call == Kill(t) && t !in s2.p.live)
            || WokenAgain(s, call, t)
            || exists j: nat :: ReadyAt(s2, t, j) && j <= i && (TakesFirst(call) ==> j == i - 1)
    ensures !Outside(s, call) && LosesAt(s, call, i) && !WokenAgain(s, call, t) ==> t in s2.p.live && !HasPlace(s2, t)
    ensures Outside(s, call) ==> ReadyAt(s2, t, i)
  {
    hide WokenAgain, LosesAt, Outside, Partition;
    if !Outside(s, call) && !WokenAgain(s, call, t) {
      ReturnsPassOver(s, call, ret, s2, t, i);
    } else if Outside(s, call) {
      OutsideStays(s, call, ret, s2);
    }
  }

  lemma OutsideStays(s: Sys, call: Call, ret: int, s2: Sys)
    requires Next(s, call, ret, s2) && Outside(s, call)
    ensures s2.p == s.p
  {
  }

  lemma ReturnsPassOver(s: Sys, call: Call, ret: int, s2: Sys, t: int, i: nat)
    requires InOrder(s) && Next(s, call, ret, s2) && ReadyAt(s, t, i) && !Outside(s, call) && !WokenAgain(s, call, t)
    ensures !LosesAt(s, call, i) ==>
            || s2.p.current == t
            || (call == Kill(t) && t !in s2.p.live)
            || exists j: nat :: ReadyAt(s2, t, j) && j <= i && (TakesFirst(call) ==> j == i - 1)
    ensures LosesAt(s, call, i) ==> t in s2.p.live && !HasPlace(s2, t)
  {
    hide Chain, Dropped, Rewoken, Enqueued;
    match call
    case Create(memory) => assert ReadyAt(s2, t, i);
    case Yield(want) => YieldPassesOver(s, want, ret, s2, t, i);
    case Exit => ExitPassesOver(s, ret, s2, t, i);
    case Kill(tid) => KillPassesOver(s, tid, ret, s2, t, i);
    case Sleep(k) =>
      assert i > 0 ==> ReadyAt(s2, t, i - 1);
    case Wakeup(k, all) => WakeupPassesOver(s, k, all, ret, s2, t, i);
  }

  lemma WakeupPassesOver(s: Sys, k: nat, all: int, ret: int, s2: Sys, t: int, i: nat)
    requires InOrder(s) && Next(s, Wakeup(k, all), ret, s2) && ReadyAt(s, t, i) && !Outside(s, Wakeup(k, all))
    requires !WokenAgain(s, Wakeup(k, all), t)
    ensures !LosesAt(s, Wakeup(k, all), i) ==> ReadyAt(s2, t, i)
    ensures LosesAt(s, Wakeup(k, all), i) ==> t in s2.p.live && !HasPlace(s2, t)
  {
    hide Chain, Dropped, Rewoken, Distinct, Woke;
    WaitersHold(s, k);
    if Stale(s, k) && AsksToWake(all) {
      var c :| WokeThese(s.p, s.queues[k], s2.p, s2.queues[k], all, ret, c);
      ChainDistinct(s.queues[k], all, c);
      assert forall d | WakesStale(s, Wakeup(k, all), d) :: d == c by {
        forall d | WakesStale(s, Wakeup(k, all), d) ensures d == c { ChainUnique(s.queues[k], all, c, d); }
      }
      assert WakesStale(s, Wakeup(k, all), c) && t !in c;
      KeptIff(s.p.ready, c, i);
      assert forall u, l: nat :: Waits(s2, u, l) ==> Waits(s, u, l);
    } else if !Stale(s, k) {
      WakeupMoves(s, s2, k, all, ret);
      ReadyStays(s.p, s.waits[k], s2.p, s2.waits[k], all, ret, t, i);
    }
  }

  lemma ReadyStays(p: Place, w: seq<int>, p2: Place, w2: seq<int>, all: int, ret: int, t: int, i: nat)
    requires Woke(p, w, p2, w2, all, ret) && i < |p.ready| && p.ready[i] == t
    ensures i < |p2.ready| && p2.ready[i] == t
  {
  }

  /** Who is not woken again keeps its position exactly if nobody before it is. */
  lemma KeptIff(q: seq<int>, c: seq<int>, i: nat)
    requires Distinct(q, THREAD_MAX_THREADS) && Distinct(c, THREAD_MAX_THREADS) && i < |q| && q[i] !in c
    ensures var r := Rewoken(q, c);
            if AgainBefore(q, c, i) then q[i] !in r else i < |r| && r[i] == q[i]
  {
    hide Rewoken;
    var m := FirstAgain(q, c);
    if m < |q| {
      RewokenForm(q, c, m, IndexOf(c, q[m]));
    } else {
      forall x | x in q ensures x !in c {
        assert q[IndexOf(q, x)] == x;
      }
      RewokenNew(q, c);
    }
  }

  lemma YieldPassesOver(s: Sys, want: int, ret: int, s2: Sys, t: int, i: nat)
    requires Partition(s) && Next(s, Yield(want), ret, s2) && ReadyAt(s, t, i)
    ensures || s2.p.current == t
            || exists j: nat :: ReadyAt(s2, t, j) && j <= i && (TakesFirst(Yield(want)) ==> j == i - 1)
  {
    var q := s.p.ready;
    if YieldAllowed(s.p, want) {
      var k: nat :| Chosen(q, want, k) && ret == q[k] &&
                    s2.p == s.p.(current := q[k], ready := Without(q, k) + [s.p.current]);
      MovesUp(q, k, i);
      assert k != i ==> ReadyAt(s2, t, if i < k then i else i - 1);
    } else {
      assert ReadyAt(s2, t, i);
    }
  }

  lemma KillPassesOver(s: Sys, tid: int, ret: int, s2: Sys, t: int, i: nat)
    requires Partition(s) && Next(s, Kill(tid), ret, s2) && ReadyAt(s, t, i) && !KillsOutside(Kill(tid))
    ensures (tid == t && t !in s2.p.live) || exists j: nat :: ReadyAt(s2, t, j) && j <= i
  {
    var q := s.p.ready;
    if tid in q && tid != 0 {
      var k: nat :| k < |q| && q[k] == tid && s2.p == s.p.(ready := Without(q, k), live := s.p.live - {tid});
      MovesUp(q, k, i);
      assert k != i ==> ReadyAt(s2, t, if i < k then i else i - 1);
    } else {
      assert ReadyAt(s2, t, i);
    }
  }

  lemma ExitPassesOver(s: Sys, ret: int, s2: Sys, t: int, i: nat)
    requires Partition(s) && Next(s, Exit, ret, s2) && ReadyAt(s, t, i)
    ensures !LosesAt(s, Exit, i) ==> s2.p.current == t || ReadyAt(s2, t, i - 1)
    ensures LosesAt(s, Exit, i) ==> t in s2.p.live && !HasPlace(s2, t)
  {
    hide UpToZero, ZeroHarmless;
    var q, r := s.p.ready, s2.p.ready;
    assert forall t, k: nat :: Waits(s2, t, k) == Waits(s, t, k);
    if i > 0 {
      KeptUpToZero(q[1..], i - 1);
      assert forall a | 0 <= a < |q| - 1 :: q[1..][a] == q[a + 1];
      assert HasPlace(s, t);
      if LosesAt(s, Exit, i) {
        var a :| 1 <= a < i && q[a] == 0;
        assert q[1..][a - 1] == 0;
        assert forall j | 0 <= j < |r| :: r[j] == q[j + 1];
      } else if !s.settled {
        assert forall a | 0 <= a < i - 1 :: q[1..][a] != 0 by {
          assert forall a | 1 <= a < i :: q[a] != 0;
        }
      }
    }
  }

  /** A position is kept if and only if thread 0 is not before it. */
  lemma KeptUpToZero(q: seq<int>, i: nat)
    requires i < |q|
    ensures i < |UpToZero(q)| <==> forall a | 0 <= a < i :: q[a] != 0
  {
    var r := UpToZero(q);
    if q[0] != 0 && i > 0 {
      KeptUpToZero(q[1..], i - 1);
      assert forall a | 0 <= a < i - 1 :: q[1..][a] == q[a + 1];
      assert (forall a | 0 <= a < i :: q[a] != 0) <==> forall a | 0 <= a < i - 1 :: q[1..][a] != 0;
    }
  }

  lemma MovesUp(q: seq<int>, k: nat, i: nat)
    requires Distinct(q, THREAD_MAX_THREADS) && k < |q| && i < |q|
    ensures i < k ==> Without(q, k)[i] == q[i]
    ensures i > k ==> Without(q, k)[i - 1] == q[i]
  {
  }

  /** Thread `t` is ready, and lost. */
  ghost predicate LosesThread(s: Sys, call: Call, t: int)
  {
    exists i :: ReadyAt(s, t, i) && LosesAt(s, call, i)
  }

  lemma LosingHarms(s: Sys, call: Call, t: int)
    requires Exclusive(s)
    ensures LosesThread(s, call, t) ==> Harms(s, call)
  {
    hide Chain;
    if i :| ReadyAt(s, t, i) && LosesAt(s, call, i) {
      if Leaves(s, call) {
        var a :| 1 <= a < i && s.p.ready[a] == 0;
        assert s.p.ready[1..][a - 1] == 0;
      } else {
        var c :| WakesStale(s, call, c) && s.p.ready[i] !in c && AgainBefore(s.p.ready, c, i);
        NotTheTail(s.p.ready, c, i);
        forall d | Chain(s.queues[call.k], call.all, d) ensures d == c {
          ChainUnique(s.queues[call.k], call.all, c, d);
        }
      }
    }
  }

  lemma NotTheTail(q: seq<int>, c: seq<int>, i: nat)
    requires Distinct(q, THREAD_MAX_THREADS) && i < |q| && q[i] !in c && AgainBefore(q, c, i)
    ensures !TailAgain(q, c)
  {
    var a :| 0 <= a < i && a < |q| && q[a] in c;
    forall m: nat | m < |q| && c != [] ensures !TailFrom(q, c, m) {
      if m <= i {
        assert q[m..][i - m] == q[i];
      } else {
        assert forall b | 0 <= b < |q[m..]| :: q[m..][b] == q[m + b] != q[a];
      }
    }
  }

  lemma LosesIt(s: Sys, call: Call, t: int, i: nat)
    requires InOrder(s) && ReadyAt(s, t, i)
    ensures LosesThread(s, call, t) <==> LosesAt(s, call, i)
  {
    assert forall j | ReadyAt(s, t, j) :: j == i;
  }

  /** How many of the calls let the first ready thread run. */
  ghost function Turns(calls: seq<Call>): nat
  {
    if calls == [] then 0
    else Turns(calls[..|calls| - 1]) + if TakesFirst(calls[|calls| - 1]) then 1 else 0
  }

  lemma TurnsNext(calls: seq<Call>, m: nat)
    requires m < |calls|
    ensures Turns(calls[..m + 1]) == Turns(calls[..m]) + if TakesFirst(calls[m]) then 1 else 0
  {
    assert calls[..m + 1][..m] == calls[..m];
  }

  lemma TurnsOfNone()
    ensures Turns([]) == 0
  {
  }

  /** In step `k` thread `t` is neither run nor killed nor, being ready, woken again. */
  ghost predicate PassedOver(ss: seq<Sys>, calls: seq<Call>, k: nat, t: int)
    requires k < |calls| && |ss| == |calls| + 1
  {
    ss[k + 1].p.current != t && calls[k] != Kill(t) && !WokenAgain(ss[k], calls[k], t)
  }

  /**
   Bounded waiting: as long as a thread with `i` threads before it has neither run nor been killed or woken again, at
   most `i` times has the first ready thread been taken, however the other calls interleave; and it is still ready,
   exactly unless the last of the calls lost it.
   */
  lemma {:induction false} BoundedWaiting(ss: seq<Sys>, calls: seq<Call>, rets: seq<int>, n: nat, t: int, i: nat)
    requires Run(ss, calls, rets) && n < |ss| && InOrder(ss[0]) && ReadyAt(ss[0], t, i)
    requires forall k: nat | k < n :: PassedOver(ss, calls, k, t)
    requires n > 0 ==> !Outside(ss[n - 1], calls[n - 1])
    ensures Turns(calls[..n]) <= i
    ensures (exists j: nat :: ReadyAt(ss[n], t, j) && j <= i - Turns(calls[..n])) <==>
            !(n > 0 && LosesThread(ss[n - 1], calls[n - 1], t))
    decreases n
  {
    hide Partition, Next, Turns, LosesAt, Outside, Harms, WokenAgain;
    if n == 0 {
      assert calls[..0] == [];
      TurnsOfNone();
      assert ReadyAt(ss[0], t, i);
    } else {
      var m := n - 1;
      RunsKeepOrder(ss, calls, rets, m);
      RunsKeepOrder(ss, calls, rets, n);
      if m > 0 {
        OutsideHarms(ss[m - 1], calls[m - 1], rets[m - 1], ss[m]);
        LosingHarms(ss[m - 1], calls[m - 1], t);
      }
      BoundedWaiting(ss, calls, rets, m, t, i);
      var j: nat :| ReadyAt(ss[m], t, j) && j <= i - Turns(calls[..m]);
      assert PassedOver(ss, calls, m, t);
      assert Next(ss[m], calls[m], rets[m], ss[n]);
      NobodyIsPassedOver(ss[m], calls[m], rets[m], ss[n], t, j);
      LosesIt(ss[m], calls[m], t, j);
      TurnsNext(calls, m);
      if !LosesAt(ss[m], calls[m], j) {
        var j2: nat :| ReadyAt(ss[n], t, j2) && j2 <= j && (TakesFirst(calls[m]) ==> j2 == j - 1);
        assert j2 <= i - Turns(calls[..n]);
      } else {
        LosingTurns(ss[m], calls[m], j);
        assert forall j2: nat :: !ReadyAt(ss[n], t, j2);
      }
    }
  }

  lemma OutsideHarms(s: Sys, call: Call, ret: int, s2: Sys)
    requires InOrder(s) && Next(s, call, ret, s2)
    ensures Exclusive(s) && (Outside(s, call) ==> Harms(s, call))
  {
    OutsideIsHarm(s, call, ret, s2);
  }

  lemma LosingTurns(s: Sys, call: Call, i: nat)
    requires LosesAt(s, call, i)
    ensures TakesFirst(call) ==> i > 0
  {
  }
}
