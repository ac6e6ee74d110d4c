/**
 The calls of the thread library as steps between states: which thread runs, which are ready and in what
 order, which exist. A wait queue in order is the sequence of its waiters.
 */
module ThreadSteps {
  import opened Sequences
  import opened ReadyLists
  import opened WaitLists

  /** Threads outside the ready queue have no successor, but for those in `loose`. */
  datatype Place = Place(current: int, ready: seq<int>, live: set<int>, loose: set<int>)

  ghost predicate IdsLeft(p: Place)
  {
    exists t :: 1 <= t < THREAD_MAX_THREADS && t !in p.live
  }

  /** thread_create: the least free id above 0 becomes a thread, at the end of the ready queue. */
  ghost predicate Created(p: Place, p2: Place, memory: bool, ret: int)
  {
    if !IdsLeft(p) then ret == THREAD_NOMORE && p2 == p
    else if !memory then ret == THREAD_NOMEMORY && p2 == p
    else
      && 1 <= ret < THREAD_MAX_THREADS && ret !in p.live && (forall t | 1 <= t < ret :: t in p.live)
      && p2 == p.(ready := p.ready + [ret], live := p.live + {ret})
  }

  /** Whether a yield to `want` finds a thread to run. */
  ghost predicate YieldAllowed(p: Place, want: int)
  {
    && want != THREAD_SELF && want != p.current && -7 <= want <= THREAD_MAX_THREADS
    && p.ready != [] && (want == THREAD_ANY || want in p.ready)
  }

  /** Position of the thread that a yield to `want` chooses. */
  ghost predicate Chosen(q: seq<int>, want: int, i: nat)
  {
    i < |q| && if want == THREAD_ANY then i == 0 else q[i] == want
  }

  /** thread_yield: the chosen thread runs, the caller goes to the end; or nothing changes. */
  ghost predicate Yielded(p: Place, p2: Place, want: int, ret: int)
  {
    if YieldAllowed(p, want) then
      exists i: nat :: Chosen(p.ready, want, i) && ret == p.ready[i] &&
                       p2 == p.(current := p.ready[i], ready := Without(p.ready, i) + [p.current])
    else
      && p2 == p
      && ret == if want == THREAD_SELF || want == p.current then p.current
                else if want == THREAD_ANY then THREAD_NONE else THREAD_INVALID
  }

  /**
   thread_exit: the caller is gone, the first ready thread runs; or the caller is the last and goes on. The first
   clean-up, before the exit array is `settled`, cuts the link of thread 0 (line 40), and what was behind it is lost.
   */
  ghost predicate Exited(p: Place, settled: bool, p2: Place, ret: int)
  {
    if p.ready == [] then ret == THREAD_NONE && p2 == p
    else
      var rest := p.ready[1..];
      var kept := if settled then rest else UpToZero(rest);
      p2 == Place(p.ready[0], kept, p.live - {p.current}, p.loose + CutOff(rest, kept))
  }

  /** thread_kill: a ready thread other than thread 0 is gone. */
  ghost predicate Killed(p: Place, p2: Place, tid: int, ret: int)
  {
    if tid in p.ready && tid != 0 then
      ret == tid &&
      exists i: nat :: i < |p.ready| && p.ready[i] == tid &&
                       p2 == p.(ready := Without(p.ready, i), live := p.live - {tid})
    else
      ret == THREAD_INVALID && p2 == p
  }

  /** thread_sleep: the caller waits, the first ready thread runs; or there is none and nothing happens. */
  ghost predicate Slept(p: Place, w: seq<int>, p2: Place, w2: seq<int>, ret: int)
  {
    if p.ready == [] then ret == THREAD_NONE && p2 == p && w2 == w
    else ret == p.ready[0] && p2 == p.(current := p.ready[0], ready := p.ready[1..]) && w2 == w + [p.current]
  }

  /** What thread_wakeup does, whatever the queue holds: the threads that it leads along are put at the end of the ready queue. */
  ghost predicate WokeChain(p: Place, q: Queue, p2: Place, q2: Queue, all: int, ret: int)
  {
    if Idle(q) || (all != 0 && all != 1) then ret == 0 && p2 == p && q2 == q
    else exists c :: WokeThese(p, q, p2, q2, all, ret, c)
  }

  ghost predicate WokeThese(p: Place, q: Queue, p2: Place, q2: Queue, all: int, ret: int, c: seq<int>)
  {
    && Chain(q, all, c) && ret == |c| && q2 == Taken(q, all)
    && p2 == p.(ready := Rewoken(p.ready, c), loose := Dropped(p.loose, p.ready, c, Rewoken(p.ready, c)))
  }

  /** thread_wakeup of a queue in order: one waiter, or all of them, go to the end of the ready queue in their order. */
  ghost predicate Woke(p: Place, w: seq<int>, p2: Place, w2: seq<int>, all: int, ret: int)
  {
    if w == [] || (all != 0 && all != 1) then ret == 0 && p2 == p && w2 == w
    else if all == 0 then ret == 1 && p2 == p.(ready := p.ready + [w[0]]) && w2 == w[1..]
    else ret == |w| && p2 == p.(ready := p.ready + w) && w2 == []
  }

  /** Of a queue that leads along its waiters, none of them ready, the waiters are woken. */
  lemma WokeWaiters(p: Place, q: Queue, w: seq<int>, p2: Place, q2: Queue, all: int, ret: int)
    requires Spells(q, w) && p.loose == {} && (forall t | t in w :: t !in p.ready) && WokeChain(p, q, p2, q2, all, ret)
    ensures Woke(p, w, p2, if all == 0 || all == 1 then Left(w, all) else w, all, ret)
    ensures q2 == if w == [] || (all != 0 && all != 1) then q else Taken(q, all)
    ensures p2.loose == {} && p2.current == p.current && p2.live == p.live
    ensures forall t | t in p2.ready :: t in p.ready || t in w
    ensures Spells(q2, if all == 0 || all == 1 then Left(w, all) else w) <==> !(all == 0 && |w| == 1)
  {
    if w != [] && (all == 0 || all == 1) {
      var c :| WokeThese(p, q, p2, q2, all, ret, c);
      var d := if all == 0 then w[..1] else w;
      WaitersChain(q, w, all);
      ChainUnique(q, all, c, d);
      ChainDistinct(q, all, c);
      WokenAtEnd(p.ready, c);
      TakenIff(q, w, all);
    }
  }
}
